/** Video frames: the sender cuts them into fragments, the receiver puts them together again. */
module Video {
  import opened Bytes
  import opened Frame

  const MAX_FRAGMENT_BYTES: nat := 1024
  const FRAME_HEADER_BYTES: nat := 10
  const FRAME_WIDTH: nat := 1280
  const MSG_VIDEO_FRAME: byte := 0x50
  const FLAG_FRAGMENTED: byte := 0x04
  const FLAG_LAST_FRAG: byte := 0x08

  datatype Fragment = Fragment(videoId: nat, idx: nat, total: nat, chunk: bytes)

  // ---- The sender's cut ----

  // How many fragments a frame takes: its length over the fragment size, rounded up.
  function Total(data: bytes): (n: nat)
    ensures n * MAX_FRAGMENT_BYTES >= |data|
    ensures n > 0 ==> (n - 1) * MAX_FRAGMENT_BYTES < |data|
  {
    (|data| + MAX_FRAGMENT_BYTES - 1) / MAX_FRAGMENT_BYTES
  }

  function Min(a: nat, b: nat): nat {
    if a <= b then a else b
  }

  // The fragment's slice of the frame; the last may be shorter.
  function Chunk(data: bytes, idx: nat): (c: bytes)
    requires idx < Total(data)
    ensures 1 <= |c| <= MAX_FRAGMENT_BYTES
  {
    data[idx * MAX_FRAGMENT_BYTES..Min((idx + 1) * MAX_FRAGMENT_BYTES, |data|)]
  }

  function FragmentOf(videoId: nat, data: bytes, idx: nat): Fragment
    requires idx < Total(data)
  {
    Fragment(videoId, idx, Total(data), Chunk(data, idx))
  }

  // Whether `struct.pack("!IHHH", ...)` accepts the header fields.
  predicate Packs(videoId: nat, total: nat) {
    videoId < U32 && total < U16
  }

  function FragmentPayload(f: Fragment): (p: bytes)
    requires Packs(f.videoId, f.total) && f.idx < f.total
    ensures |p| == FRAME_HEADER_BYTES + |f.chunk|
  {
    PackU32(f.videoId) + PackU16(f.idx) + PackU16(f.total) + PackU16(FRAME_WIDTH) + f.chunk
  }

  function Flags(idx: nat, total: nat): byte {
    if idx + 1 == total then FLAG_FRAGMENTED + FLAG_LAST_FRAG else FLAG_FRAGMENTED
  }

  // The TWCP frame for one fragment.
  function VideoFrame(videoId: nat, data: bytes, idx: nat, seqNo: nat): Sent
    requires Packs(videoId, Total(data)) && idx < Total(data)
  {
    var payload := FragmentPayload(FragmentOf(videoId, data, idx));
    Valid(VERSION, MSG_VIDEO_FRAME, Flags(idx, Total(data)), seqNo % U32, payload)
  }

  function Datagram(videoId: nat, data: bytes, idx: nat, seqNo: nat): bytes
    requires Packs(videoId, Total(data)) && idx < Total(data)
  {
    Encoded(VideoFrame(videoId, data, idx, seqNo))
  }

  // The first `n` datagrams for `data`.
  function Datagrams(videoId: nat, data: bytes, seqNo: nat, n: nat): seq<bytes>
    requires Packs(videoId, Total(data)) && n <= Total(data)
  {
    if n == 0 then [] else Datagrams(videoId, data, seqNo, n - 1) + [Datagram(videoId, data, n - 1, seqNo + n - 1)]
  }

  datatype SendResult = Done | StructError

  lemma SeqWraps(videoId: nat, data: bytes, idx: nat, seqNo: nat)
    requires Packs(videoId, Total(data)) && idx < Total(data)
    ensures Datagram(videoId, data, idx, (seqNo + idx) % U32) == Datagram(videoId, data, idx, seqNo + idx)
    ensures ((seqNo + idx) % U32 + 1) % U32 == (seqNo + idx + 1) % U32
  {
    hide Encoded, FragmentPayload, FragmentOf;
  }

  // The fragments go out in order, under consecutive numbers.
  lemma {:induction false} DatagramsInOrder(videoId: nat, data: bytes, seqNo: nat, n: nat, i: nat)
    requires Packs(videoId, Total(data)) && i < n <= Total(data)
    ensures |Datagrams(videoId, data, seqNo, n)| == n
    ensures Datagrams(videoId, data, seqNo, n)[i] == Datagram(videoId, data, i, (seqNo + i) % 0x1_0000_0000)
    decreases n
  {
    hide Datagram, Total;
    SeqWraps(videoId, data, i, seqNo);
    if i < n - 1 {
      DatagramsInOrder(videoId, data, seqNo, n - 1, i);
    } else if n > 1 {
      DatagramsInOrder(videoId, data, seqNo, n - 1, 0);
    }
  }

  // Nothing to pack, or header fields that fit.
  predicate Sendable(videoId: nat, data: bytes) {
    Total(data) == 0 || Packs(videoId, Total(data))
  }

  predicate Streamable(videoId: nat, frames: seq<bytes>) {
    forall i :: 0 <= i < |frames| ==> Sendable(videoId + i, frames[i])
  }

  // All datagrams of one frame.
  function FrameDatagrams(videoId: nat, data: bytes, seqNo: nat): seq<bytes>
    requires Sendable(videoId, data)
  {
    if Total(data) == 0 then [] else Datagrams(videoId, data, seqNo, Total(data))
  }

  // The sequence number after these frames.
  function StreamSeq(frames: seq<bytes>, seqNo: nat): nat {
    if frames == [] then seqNo
    else (StreamSeq(frames[..|frames| - 1], seqNo) + Total(frames[|frames| - 1])) % U32
  }

  // All datagrams of these frames.
  function Stream(videoId: nat, frames: seq<bytes>, seqNo: nat): seq<bytes>
    requires Streamable(videoId, frames)
  {
    if frames == [] then []
    else
      var last := |frames| - 1;
      assert Sendable(videoId + last, frames[last]);
      Stream(videoId, frames[..last], seqNo)
      + FrameDatagrams(videoId + last, frames[last], StreamSeq(frames[..last], seqNo))
  }

  class VideoStreamSender {
    var videoId: nat
    var seqNo: nat

    // Everything handed to the socket; a socket error is only logged, so each attempt counts.
    var wire: seq<bytes>

    constructor ()
      ensures videoId == 0 && seqNo == 0 && wire == []
    {
      videoId, seqNo, wire := 0, 0, [];
    }

    // All fragments go out in order under consecutive numbers, or, when a header field is too wide, none does.
    method SendFrame(data: bytes) returns (r: SendResult)
      requires seqNo < U32
      modifies this`seqNo, this`wire
      ensures r.Done? <==> Sendable(videoId, data)
      ensures r.StructError? ==> wire == old(wire) && seqNo == old(seqNo)
      ensures r.Done? ==> wire == old(wire) + FrameDatagrams(videoId, data, old(seqNo))
      ensures r.Done? ==> seqNo == (old(seqNo) + Total(data)) % U32
    {
      hide Datagram, Chunk;
      var total := Total(data);
      var idx := 0;
      while idx < total
        invariant 0 <= idx <= total && seqNo == (old(seqNo) + idx) % U32
        invariant idx > 0 ==> Packs(videoId, total)
        invariant wire == old(wire) + if idx > 0 then Datagrams(videoId, data, old(seqNo), idx) else []
      {
        if !Packs(videoId, total) {
          return StructError;
        }
        SeqWraps(videoId, data, idx, old(seqNo));
        wire := wire + [Datagram(videoId, data, idx, seqNo)];
        seqNo := (seqNo + 1) % U32;
        idx := idx + 1;
      }
      return Done;
    }

    // Frame after frame under consecutive ids; the thread dies when `struct.pack` raises.
    method StreamLoop(frames: seq<bytes>) returns (count: nat)
      requires seqNo < U32
      modifies this
      ensures count <= |frames| && videoId == old(videoId) + count
      ensures count < |frames| ==> !Sendable(videoId, frames[count])
      ensures Streamable(old(videoId), frames[..count])
      ensures seqNo == StreamSeq(frames[..count], old(seqNo))
      ensures wire == old(wire) + Stream(old(videoId), frames[..count], old(seqNo))
    {
      hide FrameDatagrams, Sendable, Total;
      count := 0;
      while count < |frames|
        invariant count <= |frames| && videoId == old(videoId) + count
        invariant Streamable(old(videoId), frames[..count])
        invariant seqNo == StreamSeq(frames[..count], old(seqNo)) < U32
        invariant wire == old(wire) + Stream(old(videoId), frames[..count], old(seqNo))
      {
        assert frames[..count + 1][..count] == frames[..count];
        var r := SendFrame(frames[count]);
        if r.StructError? {
          break;
        }
        videoId := videoId + 1;
        count := count + 1;
      }
    }
  }

  // ---- The receiver ----

  datatype Entry = Entry(total: nat, frags: map<nat, bytes>)

  datatype Delivery = Delivery(videoId: nat, data: bytes)

  datatype Receiver = Receiver(buf: map<nat, Entry>, framesOk: nat, fragsOk: nat, delivered: seq<Delivery>)

  datatype Arrival = Ignored | Arrived(fragment: Fragment)

  function Arriving(msgType: byte, payload: bytes): (a: Arrival)
    ensures a.Ignored? <==> msgType != 0x50 || |payload| < 10
  {
    if msgType != MSG_VIDEO_FRAME || |payload| < FRAME_HEADER_BYTES then Ignored
    else Arrived(Fragment(UnpackU32(payload[..4]), UnpackU16(payload[4..6]), UnpackU16(payload[6..8]),
                          payload[FRAME_HEADER_BYTES..]))
  }

  // The entry with this fragment put in; the total is the one the entry's first fragment named.
  function Updated(r: Receiver, f: Fragment): (e: Entry)
    ensures e.frags != map[]
  {
    var e := if f.videoId in r.buf then r.buf[f.videoId] else Entry(f.total, map[]);
    assert f.idx in e.frags[f.idx := f.chunk];
    e.(frags := e.frags[f.idx := f.chunk])
  }

  // The first n fragments one after the other.
  function Joined(frags: map<nat, bytes>, n: nat): bytes
    requires forall i :: 0 <= i < n ==> i in frags
  {
    if n == 0 then [] else Joined(frags, n - 1) + frags[n - 1]
  }

  // Every number below `total` is there to be joined; otherwise the join raises KeyError.
  predicate Joinable(e: Entry) {
    forall i :: 0 <= i < e.total ==> i in e.frags
  }

  function AfterFragment(r: Receiver, f: Fragment): Receiver {
    var e := Updated(r, f);
    if |e.frags| == e.total && Joinable(e) then
      Receiver(r.buf - {f.videoId}, r.framesOk + 1, r.fragsOk + 1,
               r.delivered + [Delivery(f.videoId, Joined(e.frags, e.total))])
    else
      r.(buf := r.buf[f.videoId := e], fragsOk := r.fragsOk + 1)
  }

  predicate RaisesKeyError(r: Receiver, f: Fragment) {
    var e := Updated(r, f);
    |e.frags| == e.total && !Joinable(e)
  }

  function AfterArrival(r: Receiver, a: Arrival): Receiver {
    match a
    case Ignored => r
    case Arrived(f) => AfterFragment(r, f)
  }

  // An incomplete entry keeps the total that its first fragment named, whatever later ones name.
  lemma TotalStays(r: Receiver, f: Fragment, id: nat)
    requires id in AfterFragment(r, f).buf
    ensures AfterFragment(r, f).buf[id].total == if id in r.buf then r.buf[id].total else f.total
    ensures id in r.buf || id == f.videoId
  {
    hide Joined, Joinable;
  }

  // The receiver reads back exactly the fragment that the sender put in.
  lemma ArrivingFragment(f: Fragment)
    requires Packs(f.videoId, f.total) && f.idx < f.total
    ensures Arriving(MSG_VIDEO_FRAME, FragmentPayload(f)) == Arrived(f)
  {
    hide PackU32, PackU16, UnpackU32, UnpackU16;
    var p := FragmentPayload(f);
    assert p[..4] == PackU32(f.videoId) && p[4..6] == PackU16(f.idx) && p[6..8] == PackU16(f.total);
    assert p[FRAME_HEADER_BYTES..] == f.chunk;
  }

  // All the way: the datagram of one fragment, followed by anything, parses and arrives as that fragment.
  lemma DatagramArrives(videoId: nat, data: bytes, idx: nat, seqNo: nat, tail: bytes)
    requires Packs(videoId, Total(data)) && idx < Total(data)
    ensures var p := Parse(Datagram(videoId, data, idx, seqNo) + tail);
      p.Valid? && Arriving(p.msgType, p.payload) == Arrived(FragmentOf(videoId, data, idx))
  {
    var v := VideoFrame(videoId, data, idx, seqNo);
    ArrivingFragment(FragmentOf(videoId, data, idx));
    ParseEncode(v.version, v.msgType, v.flags, v.seqNo, v.payload, tail);
    hide Parse, Encode, Arriving, FragmentPayload;
  }

  lemma PayloadFields(f: Fragment)
    requires Packs(f.videoId, f.total) && f.idx < f.total
    ensures var p := FragmentPayload(f);
      && f.videoId == p[0] as int * 0x100_0000 + p[1] as int * 0x1_0000 + p[2] as int * 0x100 + p[3] as int
      && f.idx == p[4] as int * 0x100 + p[5] as int
      && f.total == p[6] as int * 0x100 + p[7] as int
      && 1280 == p[8] as int * 0x100 + p[9] as int
      && p[10..] == f.chunk
  {
    FieldsAreBigEndian(f.videoId, f.idx);
    FieldsAreBigEndian(0, f.total);
    FieldsAreBigEndian(0, 1280);
    hide PackU32, PackU16;
    var p := FragmentPayload(f);
    assert p[..4] == PackU32(f.videoId) && p[4..6] == PackU16(f.idx) && p[6..8] == PackU16(f.total);
    assert p[8..10] == PackU16(1280) && p[10..] == f.chunk;
  }

  // What goes out for one fragment: a frame of type 0x50, marked as a fragment (4) and, only if it is the last, as that
  // (8), whose payload is the frame id, the fragment's number, their count, the width, and up to 1024 bytes.
  lemma DatagramFields(videoId: nat, data: bytes, idx: nat, seqNo: nat)
    requires Packs(videoId, Total(data)) && idx < Total(data)
    ensures var p, total := FragmentPayload(FragmentOf(videoId, data, idx)), (|data| + 1023) / 1024;
      && Build(0x50, seqNo, p, if idx == total - 1 then 12 else 4) == Built(Datagram(videoId, data, idx, seqNo))
      && videoId == p[0] as int * 0x100_0000 + p[1] as int * 0x1_0000 + p[2] as int * 0x100 + p[3] as int
      && idx == p[4] as int * 0x100 + p[5] as int
      && total == p[6] as int * 0x100 + p[7] as int
      && 1280 == p[8] as int * 0x100 + p[9] as int
      && p[10..] == data[1024 * idx..if idx == total - 1 then |data| else 1024 * (idx + 1)]
  {
    var total, f := Total(data), FragmentOf(videoId, data, idx);
    assert Chunk(data, idx) == data[1024 * idx..if idx == total - 1 then |data| else 1024 * (idx + 1)];
    PayloadFields(f);
    hide Parse, Encode, FragmentPayload, Chunk;
    assert VideoFrame(videoId, data, idx, seqNo)
        == Valid(VERSION, 0x50, if idx == total - 1 then 12 else 4, seqNo % U32, FragmentPayload(f));
  }

  datatype JoinResult = KeyError | Assembled(data: bytes)

  method Join(e: Entry) returns (r: JoinResult)
    ensures r.Assembled? <==> Joinable(e)
    ensures r.Assembled? ==> r.data == Joined(e.frags, e.total)
  {
    var data := [];
    var i := 0;
    while i < e.total
      invariant 0 <= i <= e.total && forall j :: 0 <= j < i ==> j in e.frags
      invariant data == Joined(e.frags, i)
    {
      if i !in e.frags {
        return KeyError;
      }
      data := data + e.frags[i];
      i := i + 1;
    }
    return Assembled(data);
  }

  class VideoStreamReceiver {
    var buf: map<nat, Entry>
    var framesOk: nat
    var fragsOk: nat

    // What `on_frame` was called with.
    var delivered: seq<Delivery>

    ghost function State(): Receiver
      reads this
    {
      Receiver(buf, framesOk, fragsOk, delivered)
    }

    constructor ()
      ensures State() == Receiver(map[], 0, 0, [])
    {
      buf, framesOk, fragsOk, delivered := map[], 0, 0, [];
    }

    // One parsed frame. True when the join raises KeyError.
    method Receive(msgType: byte, payload: bytes) returns (raised: bool)
      modifies this
      ensures State() == AfterArrival(old(State()), Arriving(msgType, payload))
      ensures raised <==>
        var a := Arriving(msgType, payload); a.Arrived? && RaisesKeyError(old(State()), a.fragment)
    {
      if msgType != MSG_VIDEO_FRAME || |payload| < FRAME_HEADER_BYTES {
        return false;
      }
      var videoId, idx, total := UnpackU32(payload[..4]), UnpackU16(payload[4..6]), UnpackU16(payload[6..8]);
      var chunk := payload[FRAME_HEADER_BYTES..];
      raised := ReceiveFragment(Fragment(videoId, idx, total, chunk));
    }

    method ReceiveFragment(f: Fragment) returns (raised: bool)
      modifies this
      ensures State() == AfterFragment(old(State()), f)
      ensures raised <==> RaisesKeyError(old(State()), f)
    {
      hide Joined, Joinable, Updated;
      var e := Store(f);
      fragsOk := fragsOk + 1;
      if |e.frags| == e.total {
        var joined := Join(e);
        if joined.KeyError? {
          return true;
        }
        buf := buf - {f.videoId};
        framesOk := framesOk + 1;
        delivered := delivered + [Delivery(f.videoId, joined.data)];
      }
      return false;
    }

    method Store(f: Fragment) returns (e: Entry)
      modifies this`buf
      ensures e == Updated(old(State()), f)
      ensures buf == old(buf)[f.videoId := e]
      ensures buf - {f.videoId} == old(buf) - {f.videoId}
    {
      if f.videoId !in buf {
        buf := buf[f.videoId := Entry(f.total, map[])];
      }
      e := buf[f.videoId];
      e := e.(frags := e.frags[f.idx := f.chunk]);
      buf := buf[f.videoId := e];
    }
  }
}
