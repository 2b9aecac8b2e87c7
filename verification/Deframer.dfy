/** Cutting a TCP byte stream into raw frames: the loops of the actuator controller and of the ground station. */
module Deframer {
  import opened Bytes
  import opened Frame

  const MSG_ACK: byte := 0x30
  const MSG_NACK: byte := 0x31
  const MSG_STATUS: byte := 0x41

  function Flatten(parts: seq<bytes>): bytes {
    if parts == [] then [] else parts[0] + Flatten(parts[1..])
  }

  // A raw frame as the loops cut it: as long as its own LEN field says. Nothing else is checked here.
  predicate Whole(raw: bytes) {
    |raw| >= HEADER_BYTES + CRC_BYTES && |raw| == FrameSize(Length(raw))
  }

  // The buffer begins with a complete frame.
  predicate Ready(buf: bytes) {
    |buf| >= HEADER_BYTES + CRC_BYTES && |buf| >= FrameSize(Length(buf))
  }

  datatype Cut = Cut(frames: seq<bytes>, rest: bytes)

  // The reference: whole frames that, with the rest, make up the stream, and a rest that holds no whole frame.
  predicate IsCut(buf: bytes, c: Cut) {
    && Flatten(c.frames) + c.rest == buf
    && (forall i :: 0 <= i < |c.frames| ==> Whole(c.frames[i]))
    && !Ready(c.rest)
  }

  lemma {:induction false} FlattenConcat(a: seq<bytes>, b: seq<bytes>)
    ensures Flatten(a + b) == Flatten(a) + Flatten(b)
  {
    if a == [] {
      assert a + b == b;
    } else {
      assert (a + b)[1..] == a[1..] + b;
      FlattenConcat(a[1..], b);
    }
  }

  // What follows a header does not change the length it declares.
  lemma LengthOfPrefix(a: bytes, b: bytes)
    requires |a| >= HEADER_BYTES
    ensures Length(a + b) == Length(a)
  {
    assert (a + b)[9..11] == a[9..11];
  }

  // The first frame of a cut is the frame the buffer's own LEN field delimits.
  lemma HeadOfCut(buf: bytes, c: Cut)
    requires IsCut(buf, c) && c.frames != []
    ensures Ready(buf)
    ensures var end := FrameSize(Length(buf));
      c.frames[0] == buf[..end] && IsCut(buf[end..], Cut(c.frames[1..], c.rest))
  {
    hide Length;
    var f, rest := c.frames[0], Flatten(c.frames[1..]) + c.rest;
    assert buf == f + rest;
    LengthOfPrefix(f, rest);
    assert buf[..|f|] == f && buf[|f|..] == rest;
  }

  lemma EmptyCut(buf: bytes, c: Cut)
    requires IsCut(buf, c)
    ensures c.frames == [] ==> c.rest == buf && !Ready(buf)
  {
    assert [] + c.rest == c.rest;
  }

  // A stream has at most one cut.
  lemma {:induction false} CutIsUnique(buf: bytes, c: Cut, d: Cut)
    requires IsCut(buf, c) && IsCut(buf, d)
    ensures c == d
    decreases |c.frames|
  {
    hide Length, IsCut;
    if c.frames != [] {
      HeadOfCut(buf, c);
    }
    if d.frames != [] {
      HeadOfCut(buf, d);
    }
    EmptyCut(buf, c);
    EmptyCut(buf, d);
    if c.frames != [] {
      var rest := buf[FrameSize(Length(buf))..];
      CutIsUnique(rest, Cut(c.frames[1..], c.rest), Cut(d.frames[1..], d.rest));
      assert c.frames == [c.frames[0]] + c.frames[1..] && d.frames == [d.frames[0]] + d.frames[1..];
    }
  }

  // The loop both processes run, as a function.
  function Deframe(buf: bytes): (c: Cut)
    ensures IsCut(buf, c)
    decreases |buf|
  {
    if Ready(buf) then
      var end := FrameSize(Length(buf));
      LengthOfPrefix(buf[..end], buf[end..]);
      assert buf == buf[..end] + buf[end..];
      var more := Deframe(buf[end..]);
      assert Flatten([buf[..end]] + more.frames) == buf[..end] + Flatten(more.frames);
      Cut([buf[..end]] + more.frames, more.rest)
    else
      Cut([], buf)
  }

  // One turn of the loop: the first frame of a ready buffer moves from the rest to the frames.
  lemma LoopTurn(buf: bytes, cut: seq<bytes>, rest: bytes)
    requires Ready(rest)
    requires Deframe(buf) == Cut(cut + Deframe(rest).frames, Deframe(rest).rest)
    ensures var end := FrameSize(Length(rest));
      Deframe(buf) == Cut(cut + [rest[..end]] + Deframe(rest[end..]).frames, Deframe(rest[end..]).rest)
  {
    var end := FrameSize(Length(rest));
    assert cut + ([rest[..end]] + Deframe(rest[end..]).frames) == cut + [rest[..end]] + Deframe(rest[end..]).frames;
  }

  lemma LoopDone(buf: bytes, cut: seq<bytes>, rest: bytes)
    requires !Ready(rest)
    requires Deframe(buf) == Cut(cut + Deframe(rest).frames, Deframe(rest).rest)
    ensures Deframe(buf) == Cut(cut, rest)
  {
    assert cut + [] == cut;
  }

  // Feeding the stream in two parts cuts it as feeding it whole does.
  lemma DeframeTwoParts(a: bytes, b: bytes)
    ensures var first := Deframe(a);
      var second := Deframe(first.rest + b);
      Deframe(a + b) == Cut(first.frames + second.frames, second.rest)
  {
    hide Deframe, Length, Whole, Ready;
    var first := Deframe(a);
    var second := Deframe(first.rest + b);
    var joined := Cut(first.frames + second.frames, second.rest);
    FlattenConcat(first.frames, second.frames);
    assert Flatten(joined.frames) + joined.rest == a + b by {
      assert Flatten(first.frames) + (first.rest + b) == a + b;
    }
    CutIsUnique(a + b, joined, Deframe(a + b));
  }

  // `buf` after each chunk, with all the frames cut so far.
  function Feed(buf: bytes, chunks: seq<bytes>): Cut
    decreases |chunks|
  {
    if chunks == [] then
      Cut([], buf)
    else
      var c := Deframe(buf + chunks[0]);
      var more := Feed(c.rest, chunks[1..]);
      Cut(c.frames + more.frames, more.rest)
  }

  // However a stream is chunked, the frames and the residue are those of the whole stream.
  lemma {:induction false} ChunkingDoesNotMatter(buf: bytes, chunks: seq<bytes>)
    requires !Ready(buf)
    ensures Feed(buf, chunks) == Deframe(buf + Flatten(chunks))
    decreases |chunks|
  {
    hide Deframe, Length, Whole, Ready;
    if chunks == [] {
      assert buf + Flatten(chunks) == buf;
      assert IsCut(buf, Cut([], buf));
      CutIsUnique(buf, Cut([], buf), Deframe(buf));
    } else {
      var c := Deframe(buf + chunks[0]);
      ChunkingDoesNotMatter(c.rest, chunks[1..]);
      DeframeTwoParts(buf + chunks[0], Flatten(chunks[1..]));
      assert buf + chunks[0] + Flatten(chunks[1..]) == buf + Flatten(chunks);
    }
  }

  // A stream of whole frames comes back as exactly those frames.
  lemma DeframeFlatten(frames: seq<bytes>)
    requires forall i :: 0 <= i < |frames| ==> Whole(frames[i])
    ensures Deframe(Flatten(frames)) == Cut(frames, [])
  {
    assert Flatten(frames) + [] == Flatten(frames);
    CutIsUnique(Flatten(frames), Cut(frames, []), Deframe(Flatten(frames)));
  }

  // The frames among `frames` that parse as valid, in order.
  function Accepted(frames: seq<bytes>): seq<Parsed> {
    if frames == [] then []
    else if Parse(frames[0]).Valid? then [Parse(frames[0])] + Accepted(frames[1..])
    else Accepted(frames[1..])
  }

  lemma {:induction false} AcceptedSnoc(frames: seq<bytes>, raw: bytes)
    ensures Accepted(frames + [raw]) == Accepted(frames) + (if Parse(raw).Valid? then [Parse(raw)] else [])
  {
    hide Parse;
    if frames == [] {
      assert frames + [raw] == [raw] + [];
      assert Accepted([]) == [];
    } else {
      assert (frames + [raw])[1..] == frames[1..] + [raw];
      AcceptedSnoc(frames[1..], raw);
    }
  }

  // turbine/actuator_controller.py: dispatches every valid frame in `buf` and returns what is left.
  method ProcessBuffer(buf: bytes) returns (rest: bytes, dispatched: seq<Parsed>)
    ensures rest == Deframe(buf).rest
    ensures dispatched == Accepted(Deframe(buf).frames)
  {
    hide Parse, Deframe, Length;
    rest, dispatched := buf, [];
    ghost var cut := [];
    while |rest| >= HEADER_BYTES + CRC_BYTES
      invariant Deframe(buf) == Cut(cut + Deframe(rest).frames, Deframe(rest).rest)
      invariant dispatched == Accepted(cut)
      decreases |rest|
    {
      var end := FrameSize(Length(rest));
      if |rest| < end {
        break;
      }
      var raw := rest[..end];
      LoopTurn(buf, cut, rest);
      AcceptedSnoc(cut, raw);
      cut := cut + [raw];
      rest := rest[end..];
      var parsed := Parse(raw);
      if parsed.Valid? {
        dispatched := dispatched + [parsed];
      }
    }
    LoopDone(buf, cut, rest);
  }

  // What the ground station does with a valid frame; other types are ignored.
  datatype Report = Acknowledged(seqNo: nat) | Refused(reason: bytes) | Status(report: bytes)

  function ReportOf(p: Parsed): seq<Report> {
    if !p.Valid? then []
    else if p.msgType == MSG_ACK then [Acknowledged(p.seqNo)]
    else if p.msgType == MSG_NACK then [Refused(p.payload)]
    else if p.msgType == MSG_STATUS then [Status(p.payload)]
    else []
  }

  // Of the frames that `build_frame` makes, an ACK (0x30) is reported with its number, a NACK (0x31) and a status
  // (0x41) with their payload, and no other.
  lemma ReportOfBuilt(msgType: int, seqNo: int, payload: bytes, flags: int)
    requires |payload| <= 0xFFFF
    ensures var r := ReportOf(Parse(Build(msgType, seqNo, payload, flags).raw));
      && (msgType % 0x100 == 0x30 ==> r == [Acknowledged(seqNo % 0x1_0000_0000)])
      && (msgType % 0x100 == 0x31 ==> r == [Refused(payload)])
      && (msgType % 0x100 == 0x41 ==> r == [Status(payload)])
      && (msgType % 0x100 != 0x30 && msgType % 0x100 != 0x31 && msgType % 0x100 != 0x41 ==> r == [])
  {
    hide Parse, Encode;
    ParseBuild(msgType, seqNo, payload, flags, []);
    assert Build(msgType, seqNo, payload, flags).raw + [] == Build(msgType, seqNo, payload, flags).raw;
  }

  function Reports(frames: seq<Parsed>): seq<Report> {
    if frames == [] then [] else Reports(frames[..|frames| - 1]) + ReportOf(frames[|frames| - 1])
  }

  lemma ReportsSnoc(ps: seq<Parsed>, p: Parsed)
    ensures Reports([]) == [] && Reports(ps + [p]) == Reports(ps) + ReportOf(p)
  {
    hide ReportOf;
    assert (ps + [p])[..|ps|] == ps;
  }

  // Reports keep the order of their frames.
  lemma {:induction false} ReportsInOrder(a: seq<Parsed>, b: seq<Parsed>)
    ensures Reports(a + b) == Reports(a) + Reports(b)
  {
    hide Reports, ReportOf;
    if b == [] {
      ReportsSnoc(a, Invalid(TooShort(0)));
      assert a + b == a;
    } else {
      var init, last := b[..|b| - 1], b[|b| - 1];
      ReportsInOrder(a, init);
      ReportsSnoc(init, last);
      ReportsSnoc(a + init, last);
      assert init + [last] == b && a + init + [last] == a + b;
    }
  }

  lemma ReportsTurn(cut: seq<bytes>, raw: bytes)
    ensures Reports(Accepted(cut + [raw])) == Reports(Accepted(cut)) + ReportOf(Parse(raw))
  {
    hide Parse, Reports;
    AcceptedSnoc(cut, raw);
    if Parse(raw).Valid? {
      ReportsSnoc(Accepted(cut), Parse(raw));
    } else {
      assert Accepted(cut) + [] == Accepted(cut);
    }
  }

  // ground/control_station.py: the same cuts, with its own handling of the valid frames.
  method ProcessTcpBuf(buf: bytes) returns (rest: bytes, reports: seq<Report>)
    ensures rest == Deframe(buf).rest
    ensures reports == Reports(Accepted(Deframe(buf).frames))
  {
    hide Parse, Deframe, Length;
    rest, reports := buf, [];
    ghost var cut := [];
    while |rest| >= HEADER_BYTES + CRC_BYTES
      invariant Deframe(buf) == Cut(cut + Deframe(rest).frames, Deframe(rest).rest)
      invariant reports == Reports(Accepted(cut))
      decreases |rest|
    {
      var end := FrameSize(Length(rest));
      if |rest| < end {
        break;
      }
      var raw := rest[..end];
      LoopTurn(buf, cut, rest);
      ReportsTurn(cut, raw);
      rest := rest[end..];
      var parsed := Parse(raw);
      if parsed.Valid? {
        if parsed.msgType == MSG_ACK {
          reports := reports + [Acknowledged(parsed.seqNo)];
        } else if parsed.msgType == MSG_NACK {
          reports := reports + [Refused(parsed.payload)];
        } else if parsed.msgType == MSG_STATUS {
          reports := reports + [Status(parsed.payload)];
        }
      }
      cut := cut + [raw];
    }
    LoopDone(buf, cut, rest);
  }

  // What one turn of a connection loop meets: bytes, none meaning that the peer closed; a receive timeout; a socket
  // error; or the running flag cleared before the turn.
  datatype Input = Chunk(data: bytes) | TimedOut | SocketError | Stopped

  // The bytes a connection delivers until one of these ends it; a timeout does not.
  function Received(inputs: seq<Input>): bytes {
    if inputs == [] then []
    else
      match inputs[0]
      case Chunk(data) => if data == [] then [] else data + Received(inputs[1..])
      case TimedOut => Received(inputs[1..])
      case SocketError => []
      case Stopped => []
  }

  lemma ReceivedTurn(inputs: seq<Input>, i: nat)
    requires i < |inputs|
    ensures var rest := Received(inputs[i + 1..]);
      Received(inputs[i..]) ==
        match inputs[i]
        case Chunk(data) => if data == [] then [] else data + rest
        case TimedOut => rest
        case SocketError => []
        case Stopped => []
  {
    assert inputs[i..][0] == inputs[i] && inputs[i..][1..] == inputs[i + 1..];
  }

  // A receive timeout changes nothing.
  lemma {:induction false} TimeoutGoesOn(before: seq<Input>, after: seq<Input>)
    ensures Received(before + [TimedOut] + after) == Received(before + after)
  {
    if before == [] {
      assert before + [TimedOut] + after == [TimedOut] + after && before + after == after;
    } else {
      assert (before + [TimedOut] + after)[1..] == before[1..] + [TimedOut] + after;
      assert (before + after)[1..] == before[1..] + after;
      TimeoutGoesOn(before[1..], after);
    }
  }

  predicate EndsLoop(i: Input) {
    i == Chunk([]) || i == SocketError || i == Stopped
  }

  // Nothing counts after the end.
  lemma {:induction false} EndCutsOff(before: seq<Input>, end: Input, after: seq<Input>)
    requires EndsLoop(end)
    ensures Received(before + [end] + after) == Received(before)
  {
    if before == [] {
      assert before + [end] + after == [end] + after;
    } else {
      assert (before + [end] + after)[1..] == before[1..] + [end] + after;
      EndCutsOff(before[1..], end, after);
    }
  }

  // And up to it every chunk counts, in order.
  lemma {:induction false} ChunksAreReceived(chunks: seq<bytes>)
    requires [] !in chunks
    ensures Received(seq(|chunks|, i requires 0 <= i < |chunks| => Chunk(chunks[i]))) == Flatten(chunks)
  {
    if chunks != [] {
      var inputs := seq(|chunks|, i requires 0 <= i < |chunks| => Chunk(chunks[i]));
      var rest := chunks[1..];
      assert inputs[1..] == seq(|rest|, i requires 0 <= i < |rest| => Chunk(rest[i]));
      ChunksAreReceived(rest);
    }
  }

  lemma {:induction false} AcceptedConcat(a: seq<bytes>, b: seq<bytes>)
    ensures Accepted(a + b) == Accepted(a) + Accepted(b)
  {
    hide Parse;
    if a == [] {
      assert a + b == b;
    } else {
      assert (a + b)[1..] == a[1..] + b;
      AcceptedConcat(a[1..], b);
    }
  }

  // What one more chunk adds.
  lemma FeedOne(seen: bytes, data: bytes)
    ensures var second := Deframe(Deframe(seen).rest + data);
      && Deframe(seen + data).rest == second.rest
      && Accepted(Deframe(seen + data).frames) == Accepted(Deframe(seen).frames) + Accepted(second.frames)
  {
    hide Deframe, Accepted;
    DeframeTwoParts(seen, data);
    AcceptedConcat(Deframe(seen).frames, Deframe(Deframe(seen).rest + data).frames);
  }

  lemma BeforeFirst(inputs: seq<Input>)
    ensures inputs[0..] == inputs && Received(inputs[|inputs|..]) == []
    ensures Deframe([]) == Cut([], []) && Accepted([]) == []
  {
  }

  // The connection loop: whatever the chunks, the timeouts and the end, it dispatches the valid frames of the stream
  // received until then, in order.
  method ClientHandler(inputs: seq<Input>) returns (dispatched: seq<Parsed>)
    ensures dispatched == Accepted(Deframe(Received(inputs)).frames)
  {
    hide *;
    BeforeFirst(inputs);
    var buf := [];
    dispatched := [];
    ghost var seen := [];
    var i := 0;
    while i < |inputs|
      invariant i <= |inputs|
      invariant Received(inputs) == seen + Received(inputs[i..])
      invariant buf == Deframe(seen).rest
      invariant dispatched == Accepted(Deframe(seen).frames)
    {
      var input := inputs[i];
      ReceivedTurn(inputs, i);
      if input.Stopped? || input.SocketError? || input == Chunk([]) {
        assert seen + [] == seen;
        return;
      }
      if input.Chunk? {
        var more;
        FeedOne(seen, input.data);
        buf, more := ProcessBuffer(buf + input.data);
        dispatched := dispatched + more;
        assert seen + (input.data + Received(inputs[i + 1..])) == seen + input.data + Received(inputs[i + 1..]);
        seen := seen + input.data;
      }
      i := i + 1;
    }
    assert seen + [] == seen;
  }

  function EncodeAll(ps: seq<Sent>): (raws: seq<bytes>)
    ensures |raws| == |ps|
  {
    if ps == [] then [] else [Encoded(ps[0])] + EncodeAll(ps[1..])
  }

  lemma EncodedIsWhole(p: Sent)
    ensures Whole(Encoded(p)) && Parse(Encoded(p)) == p
  {
    hide Checksum, Header, UnpackU32, UnpackU16;
    var raw := Encoded(p);
    ParseEncode(p.version, p.msgType, p.flags, p.seqNo, p.payload, []);
    assert raw + [] == raw;
    var head := Header(p.version, p.msgType, p.flags, p.seqNo, |p.payload|);
    HeaderFields(p.version, p.msgType, p.flags, p.seqNo, |p.payload|, p.payload + Checksum(head + p.payload));
    assert raw == head + (p.payload + Checksum(head + p.payload));
  }

  lemma {:induction false} EncodeAllIsWhole(ps: seq<Sent>)
    ensures forall i :: 0 <= i < |ps| ==> Whole(EncodeAll(ps)[i])
  {
    hide Parse, Encoded, Whole;
    if ps != [] {
      EncodedIsWhole(ps[0]);
      EncodeAllIsWhole(ps[1..]);
      forall i | 0 <= i < |ps| ensures Whole(EncodeAll(ps)[i]) {
        assert i > 0 ==> EncodeAll(ps)[i] == EncodeAll(ps[1..])[i - 1];
      }
    }
  }

  lemma {:induction false} AcceptedEncodings(ps: seq<Sent>)
    ensures Accepted(EncodeAll(ps)) == ps
  {
    hide Parse, Encoded, Whole;
    if ps != [] {
      EncodedIsWhole(ps[0]);
      AcceptedEncodings(ps[1..]);
      var first, rest := Encoded(ps[0]), EncodeAll(ps[1..]);
      assert EncodeAll(ps) == [first] + rest;
      hide EncodeAll;
      assert ([first] + rest)[1..] == rest;
      assert ps == [ps[0]] + ps[1..];
    }
  }

  // End to end over TCP: built frames, concatenated and cut anywhere, come out as exactly the frames that were sent.
  lemma StreamDelivers(ps: seq<Sent>, chunks: seq<bytes>)
    requires Flatten(chunks) == Flatten(EncodeAll(ps))
    ensures Feed([], chunks) == Cut(EncodeAll(ps), [])
    ensures Accepted(Feed([], chunks).frames) == ps
  {
    hide Parse, Encoded, Deframe, Length, Feed;
    ChunkingDoesNotMatter([], chunks);
    assert [] + Flatten(chunks) == Flatten(chunks);
    EncodeAllIsWhole(ps);
    AcceptedEncodings(ps);
    DeframeFlatten(EncodeAll(ps));
  }
}
