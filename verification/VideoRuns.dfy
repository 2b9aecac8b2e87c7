/**
 * Whole runs of the video receiver. `frames[id]` is the frame the sender cut under that id; what arrives is any
 * sequence of such fragments: any interleaving, any order, any of them lost or repeated.
 */
module VideoRuns {
  import opened Bytes
  import opened Frame
  import opened Video

  const EMPTY: Receiver := Receiver(map[], 0, 0, [])

  predicate Genuine(frames: seq<bytes>, f: Fragment) {
    f.videoId < |frames| && f.idx < Total(frames[f.videoId]) && f == FragmentOf(f.videoId, frames[f.videoId], f.idx)
  }

  predicate AllGenuine(frames: seq<bytes>, fs: seq<Fragment>) {
    forall f :: f in fs ==> Genuine(frames, f)
  }

  function Run(fs: seq<Fragment>): Receiver {
    if fs == [] then EMPTY else AfterFragment(Run(fs[..|fs| - 1]), fs[|fs| - 1])
  }

  // How many copies of this fragment arrived, and how often this frame was delivered.
  function Copies(fs: seq<Fragment>, id: nat, idx: nat): nat {
    if fs == [] then 0
    else Copies(fs[..|fs| - 1], id, idx) + if fs[|fs| - 1].videoId == id && fs[|fs| - 1].idx == idx then 1 else 0
  }

  function Deliveries(ds: seq<Delivery>, id: nat): nat {
    if ds == [] then 0 else Deliveries(ds[..|ds| - 1], id) + if ds[|ds| - 1].videoId == id then 1 else 0
  }

  lemma DeliveriesSnoc(ds: seq<Delivery>, d: Delivery, id: nat)
    ensures Deliveries(ds + [d], id) == Deliveries(ds, id) + if d.videoId == id then 1 else 0
  {
    assert (ds + [d])[..|ds|] == ds;
  }

  // ---- Counting the fragments of an entry ----

  function Below(n: nat): (s: set<nat>)
    ensures |s| == n
    ensures forall i :: i in s <==> 0 <= i < n
  {
    if n == 0 then {} else Below(n - 1) + {n - 1}
  }

  lemma Subset(a: set<nat>, b: set<nat>)
    requires a <= b
    ensures |a| <= |b| && (|a| == |b| ==> a == b)
  {
    assert b == a + (b - a);
    assert |b| == |a| + |b - a|;
  }

  // An entry whose numbers are all below the total is joinable as soon as it holds that many.
  lemma FullMeansAll(frags: map<nat, bytes>, total: nat)
    requires forall i :: i in frags ==> i < total
    ensures |frags| <= total
    ensures |frags| == total ==> forall i :: 0 <= i < total ==> i in frags
  {
    var all := Below(total);
    assert frags.Keys <= all;
    Subset(frags.Keys, all);
  }

  // The chunks of a frame, joined in order, are the frame.
  lemma {:induction false} JoinedChunks(frags: map<nat, bytes>, data: bytes, n: nat)
    requires n <= Total(data)
    requires forall i :: 0 <= i < n ==> i in frags && frags[i] == Chunk(data, i)
    ensures Joined(frags, n) == data[..Min(n * MAX_FRAGMENT_BYTES, |data|)]
  {
    hide Total;
    if n > 0 {
      JoinedChunks(frags, data, n - 1);
      assert data[..Min(n * MAX_FRAGMENT_BYTES, |data|)] == data[..(n - 1) * MAX_FRAGMENT_BYTES] + Chunk(data, n - 1);
    }
  }

  // ---- The invariant ----

  predicate EntryInv(data: bytes, e: Entry) {
    && e.total == Total(data) && |e.frags| < e.total
    && (forall i :: i in e.frags ==> i < e.total && e.frags[i] == Chunk(data, i))
  }

  predicate BufInv(frames: seq<bytes>, r: Receiver) {
    forall id :: id in r.buf ==> id < |frames| && EntryInv(frames[id], r.buf[id])
  }

  predicate DeliveredInv(frames: seq<bytes>, ds: seq<Delivery>) {
    forall j :: 0 <= j < |ds| ==> ds[j].videoId < |frames| && ds[j].data == frames[ds[j].videoId]
  }

  lemma UpdatedChunks(frames: seq<bytes>, r: Receiver, f: Fragment)
    requires BufInv(frames, r) && Genuine(frames, f)
    ensures var e := Updated(r, f);
      && e.total == Total(frames[f.videoId])
      && (forall i :: i in e.frags ==> i < e.total && e.frags[i] == Chunk(frames[f.videoId], i))
  {
    hide Total, Chunk;
  }

  lemma UpdatedEntry(frames: seq<bytes>, r: Receiver, f: Fragment)
    requires BufInv(frames, r) && Genuine(frames, f)
    ensures var e := Updated(r, f);
      && e.total == Total(frames[f.videoId]) && |e.frags| <= e.total
      && (forall i :: i in e.frags ==> i < e.total && e.frags[i] == Chunk(frames[f.videoId], i))
      && (|e.frags| == e.total ==> Joinable(e) && Joined(e.frags, e.total) == frames[f.videoId])
  {
    UpdatedChunks(frames, r, f);
    hide Total, Chunk, Joined, BufInv, Updated;
    var e, data := Updated(r, f), frames[f.videoId];
    FullMeansAll(e.frags, e.total);
    if |e.frags| == e.total {
      JoinedChunks(e.frags, data, e.total);
      assert data[..|data|] == data;
    }
  }

  lemma StepKeepsInv(frames: seq<bytes>, r: Receiver, f: Fragment)
    requires BufInv(frames, r) && DeliveredInv(frames, r.delivered) && Genuine(frames, f)
    ensures BufInv(frames, AfterFragment(r, f)) && DeliveredInv(frames, AfterFragment(r, f).delivered)
    ensures !RaisesKeyError(r, f)
  {
    hide Total, Chunk, Joined, Joinable, Updated;
    UpdatedEntry(frames, r, f);
  }

  lemma NothingYet(frames: seq<bytes>)
    ensures BufInv(frames, EMPTY) && DeliveredInv(frames, [])
  {
  }

  lemma {:induction false} RunKeepsInv(frames: seq<bytes>, fs: seq<Fragment>)
    requires AllGenuine(frames, fs)
    ensures BufInv(frames, Run(fs)) && DeliveredInv(frames, Run(fs).delivered)
  {
    hide Genuine, BufInv, DeliveredInv, AfterFragment;
    if fs == [] {
      NothingYet(frames);
    } else {
      var before, f := fs[..|fs| - 1], fs[|fs| - 1];
      assert f in fs && forall g :: g in before ==> g in fs;
      RunKeepsInv(frames, before);
      StepKeepsInv(frames, Run(before), f);
    }
  }

  // ---- Counting deliveries ----

  predicate Held(r: Receiver, id: nat, idx: nat) {
    id in r.buf && idx in r.buf[id].frags
  }

  // Each delivery used up one copy, and one more copy is in the buffer if the fragment is held; until the first
  // delivery every fragment that arrived is held.
  predicate CountInv(r: Receiver, copies: nat, id: nat, idx: nat) {
    && Deliveries(r.delivered, id) + (if Held(r, id, idx) then 1 else 0) <= copies
    && (Deliveries(r.delivered, id) == 0 && copies >= 1 ==> Held(r, id, idx))
  }

  lemma StepKeepsCount(frames: seq<bytes>, r: Receiver, f: Fragment, copies: nat, id: nat, idx: nat)
    requires BufInv(frames, r) && Genuine(frames, f)
    requires id < |frames| && idx < Total(frames[id]) && CountInv(r, copies, id, idx)
    ensures CountInv(AfterFragment(r, f), if f.videoId == id && f.idx == idx then copies + 1 else copies, id, idx)
  {
    hide Total, Chunk, Joined, Genuine, EntryInv, Deliveries;
    UpdatedEntry(frames, r, f);
    var e := Updated(r, f);
    DeliveriesSnoc(r.delivered, Delivery(f.videoId, if Joinable(e) then Joined(e.frags, e.total) else []), id);
  }

  lemma {:induction false} RunKeepsCount(frames: seq<bytes>, fs: seq<Fragment>, id: nat, idx: nat)
    requires AllGenuine(frames, fs) && id < |frames| && idx < Total(frames[id])
    ensures CountInv(Run(fs), Copies(fs, id, idx), id, idx)
  {
    hide Genuine, BufInv, Total, AfterFragment;
    if fs != [] {
      hide CountInv;
      var before, f := fs[..|fs| - 1], fs[|fs| - 1];
      assert f in fs && forall g :: g in before ==> g in fs;
      RunKeepsInv(frames, before);
      RunKeepsCount(frames, before, id, idx);
      StepKeepsCount(frames, Run(before), f, Copies(before, id, idx), id, idx);
    }
  }

  // ---- Main results ----

  // Reassembly undoes fragmentation: whatever arrives in whatever order and number, each delivered frame is the
  // original, and the join never raises.
  lemma DeliveredFramesAreOriginal(frames: seq<bytes>, fs: seq<Fragment>, j: nat)
    requires AllGenuine(frames, fs)
    ensures j < |Run(fs).delivered| ==>
      Run(fs).delivered[j].videoId < |frames| && Run(fs).delivered[j].data == frames[Run(fs).delivered[j].videoId]
    ensures j < |fs| ==> !RaisesKeyError(Run(fs[..j]), fs[j])
  {
    hide Run, Genuine, RaisesKeyError;
    RunKeepsInv(frames, fs);
    if j < |fs| {
      assert fs[j] in fs && forall g :: g in fs[..j] ==> g in fs;
      RunKeepsInv(frames, fs[..j]);
      StepKeepsInv(frames, Run(fs[..j]), fs[j]);
    }
  }

  // The counters: each fragment counts, and each delivery.
  lemma {:induction false} CountersAreExact(frames: seq<bytes>, fs: seq<Fragment>)
    requires AllGenuine(frames, fs)
    ensures Run(fs).fragsOk == |fs| && Run(fs).framesOk == |Run(fs).delivered|
  {
    hide Genuine, Updated, Joinable, Joined;
    if fs != [] {
      assert forall f :: f in fs[..|fs| - 1] ==> f in fs;
      CountersAreExact(frames, fs[..|fs| - 1]);
    }
  }

  // A frame is never delivered more often than its rarest fragment arrived.
  lemma DeliveriesAreBounded(frames: seq<bytes>, fs: seq<Fragment>, id: nat, idx: nat)
    requires AllGenuine(frames, fs) && id < |frames| && idx < Total(frames[id])
    ensures Deliveries(Run(fs).delivered, id) <= Copies(fs, id, idx)
  {
    RunKeepsCount(frames, fs, id, idx);
  }

  // No entry of the buffer ever holds all the fragments of its frame.
  lemma HoldsNotAll(frames: seq<bytes>, r: Receiver, id: nat) returns (idx: nat)
    requires BufInv(frames, r) && id < |frames| && frames[id] != []
    ensures idx < Total(frames[id]) && !Held(r, id, idx)
  {
    var total := Total(frames[id]);
    assert total > 0;
    hide Total, Chunk;
    if id !in r.buf {
      idx := 0;
    } else {
      var keys := r.buf[id].frags.Keys;
      assert |keys| == |r.buf[id].frags| < total;
      if Below(total) <= keys {
        Subset(Below(total), keys);
        assert false;
      }
      idx :| idx in Below(total) && idx !in keys;
    }
  }

  // A non-empty frame is delivered if and only if each of its fragments arrived at least once.
  lemma DeliveredIffAllArrived(frames: seq<bytes>, fs: seq<Fragment>, id: nat)
    requires AllGenuine(frames, fs) && id < |frames| && frames[id] != []
    ensures Deliveries(Run(fs).delivered, id) >= 1
       <==> forall idx :: 0 <= idx < Total(frames[id]) ==> Copies(fs, id, idx) >= 1
  {
    hide Run, Genuine, Copies, Deliveries, Total, BufInv;
    RunKeepsInv(frames, fs);
    forall idx | 0 <= idx < Total(frames[id]) && Deliveries(Run(fs).delivered, id) >= 1 ensures Copies(fs, id, idx) >= 1 {
      RunKeepsCount(frames, fs, id, idx);
    }
    var idx := HoldsNotAll(frames, Run(fs), id);
    RunKeepsCount(frames, fs, id, idx);
  }

  // An entry of the buffer holds something.
  lemma {:induction false} BufferedIsHeld(fs: seq<Fragment>, id: nat)
    ensures id in Run(fs).buf ==> Run(fs).buf[id].frags != map[]
  {
    hide Updated;
    if fs != [] {
      BufferedIsHeld(fs[..|fs| - 1], id);
    }
  }

  // Exactly once in, exactly once out, and nothing stays behind.
  lemma ExactlyOnce(frames: seq<bytes>, fs: seq<Fragment>, id: nat)
    requires AllGenuine(frames, fs) && id < |frames| && frames[id] != []
    requires forall idx :: 0 <= idx < Total(frames[id]) ==> Copies(fs, id, idx) == 1
    ensures Deliveries(Run(fs).delivered, id) == 1 && id !in Run(fs).buf
  {
    hide Run, Genuine, Copies, Deliveries, Chunk;
    var r, total := Run(fs), Total(frames[id]);
    DeliveredIffAllArrived(frames, fs, id);
    DeliveriesAreBounded(frames, fs, id, 0);
    BufferedIsHeld(fs, id);
    RunKeepsInv(frames, fs);
    if id in r.buf {
      var idx :| idx in r.buf[id].frags;
      RunKeepsCount(frames, fs, id, idx);
    }
  }

  // ---- From the sender's wire to the receiver ----

  // The receiver fed with datagrams: what does not parse is dropped before it.
  function FromWire(ds: seq<bytes>): Receiver {
    if ds == [] then EMPTY
    else
      var r, p := FromWire(ds[..|ds| - 1]), Parse(ds[|ds| - 1]);
      if p.Valid? then AfterArrival(r, Arriving(p.msgType, p.payload)) else r
  }

  predicate IsDatagram(frames: seq<bytes>, raw: bytes, id: nat, idx: nat, seqNo: nat) {
    && id < |frames| && idx < Total(frames[id]) && Packs(id, Total(frames[id]))
    && raw == Datagram(id, frames[id], idx, seqNo)
  }

  ghost predicate OnWire(frames: seq<bytes>, raw: bytes) {
    exists id: nat, idx: nat, seqNo: nat :: IsDatagram(frames, raw, id, idx, seqNo)
  }

  lemma {:induction false} DatagramsOnWire(frames: seq<bytes>, id: nat, seqNo: nat, n: nat, raw: bytes)
    requires id < |frames| && Packs(id, Total(frames[id])) && n <= Total(frames[id])
    requires raw in Datagrams(id, frames[id], seqNo, n)
    ensures OnWire(frames, raw)
  {
    hide Datagram, Total, Packs;
    if raw == Datagram(id, frames[id], n - 1, seqNo + n - 1) {
      assert IsDatagram(frames, raw, id, n - 1, seqNo + n - 1);
    } else {
      DatagramsOnWire(frames, id, seqNo, n - 1, raw);
    }
  }

  // Everything the sender's stream puts on the wire is a fragment of one of its frames.
  lemma {:induction false} StreamOnWire(frames: seq<bytes>, n: nat, seqNo: nat, raw: bytes)
    requires n <= |frames| && Streamable(0, frames[..n]) && raw in Stream(0, frames[..n], seqNo)
    ensures OnWire(frames, raw)
  {
    hide Total, OnWire, Datagrams, StreamSeq;
    var last := n - 1;
    assert frames[..n][..last] == frames[..last] && frames[..n][last] == frames[last];
    if raw in Stream(0, frames[..last], seqNo) {
      StreamOnWire(frames, last, seqNo, raw);
    } else {
      assert Sendable(last, frames[last]);
      DatagramsOnWire(frames, last, StreamSeq(frames[..last], seqNo), Total(frames[last]), raw);
    }
  }

  lemma WireFragment(frames: seq<bytes>, d: bytes) returns (f: Fragment)
    requires OnWire(frames, d)
    ensures Genuine(frames, f) && Parse(d).Valid? && Arriving(Parse(d).msgType, Parse(d).payload) == Arrived(f)
  {
    hide Datagram, Parse, Arriving, Total, Chunk;
    var id: nat, idx: nat, seqNo: nat :| IsDatagram(frames, d, id, idx, seqNo);
    DatagramArrives(id, frames[id], idx, seqNo, []);
    assert d + [] == d;
    f := FragmentOf(id, frames[id], idx);
  }

  lemma {:induction false} WireRun(frames: seq<bytes>, ds: seq<bytes>) returns (fs: seq<Fragment>)
    requires forall d :: d in ds ==> OnWire(frames, d)
    ensures |fs| == |ds| && AllGenuine(frames, fs) && FromWire(ds) == Run(fs)
  {
    hide Datagram, Parse, Arriving, AfterFragment, Total, Chunk;
    if ds == [] {
      fs := [];
    } else {
      var before, d := ds[..|ds| - 1], ds[|ds| - 1];
      assert d in ds && forall x :: x in before ==> x in ds;
      var f := WireFragment(frames, d);
      hide OnWire, Genuine;
      var gs := WireRun(frames, before);
      fs := gs + [f];
      assert fs[..|gs|] == gs;
    }
  }

  // End to end: whichever datagrams of the stream arrive, in any order and number, what the receiver delivers under an
  // id is the frame that the sender cut under it.
  lemma VideoSurvivesTheNetwork(frames: seq<bytes>, seqNo: nat, ds: seq<bytes>, j: nat)
    requires Streamable(0, frames) && forall d :: d in ds ==> d in Stream(0, frames, seqNo)
    requires j < |FromWire(ds).delivered|
    ensures var got := FromWire(ds).delivered[j];
      got.videoId < |frames| && got.data == frames[got.videoId]
  {
    hide FromWire, Stream, Streamable, OnWire, Run, AllGenuine;
    assert frames[..|frames|] == frames;
    forall d | d in ds ensures OnWire(frames, d) {
      StreamOnWire(frames, |frames|, seqNo, d);
    }
    var fs := WireRun(frames, ds);
    DeliveredFramesAreOriginal(frames, fs, j);
  }
}
