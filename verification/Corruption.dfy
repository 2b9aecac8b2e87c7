/** Which changes to a frame `Frame.Parse` detects: everything the channel's bit flips can do, except some in LEN. */
module Corruption {
  import opened Bytes
  import opened Frame
  import Crc32

  // Same length, and equal outside positions lo..hi.
  predicate ChangedWithin(a: bytes, b: bytes, lo: nat, hi: nat) {
    && |a| == |b| && lo <= hi <= |a|
    && a[..lo] == b[..lo] && a[hi..] == b[hi..]
  }

  lemma Cut(s: bytes, lo: nat, hi: nat)
    requires lo <= hi <= |s|
    ensures s == s[..lo] + s[lo..hi] + s[hi..]
  {
    assert s[..lo] + s[lo..hi] == s[..hi];
  }

  lemma ChecksumDetectsBurst(a: bytes, b: bytes, lo: nat, hi: nat)
    requires a != b && ChangedWithin(a, b, lo, hi) && hi - lo <= 4
    ensures Checksum(a) != Checksum(b)
  {
    hide Crc32.Crc, Crc32.Pack;
    Cut(a, lo, hi);
    Cut(b, lo, hi);
    Crc32.CrcDetectsBurst(a[..lo], a[lo..hi], b[lo..hi], a[hi..]);
    if Checksum(a) == Checksum(b) {
      Crc32.PackInjective(Crc32.Crc(a), Crc32.Crc(b));
    }
  }

  lemma SameOutside(a: bytes, b: bytes, lo: nat, hi: nat, i: nat)
    requires ChangedWithin(a, b, lo, hi) && i < |a| && (i < lo || hi <= i)
    ensures a[i] == b[i]
  {
    if i < lo {
      assert a[i] == a[..lo][i] && b[i] == b[..lo][i];
    } else {
      assert a[i] == a[hi..][i - hi] && b[i] == b[hi..][i - hi];
    }
  }

  // An encoded frame is its body followed by the body's checksum, and a change elsewhere leaves LEN readable.
  lemma IntactLength(version: byte, msgType: byte, flags: byte, seqNo: nat, payload: bytes, raw: bytes, lo: nat, hi: nat)
    requires seqNo < U32 && |payload| < U16
    requires ChangedWithin(Encode(version, msgType, flags, seqNo, payload), raw, lo, hi)
    requires hi <= 9 || lo >= HEADER_BYTES
    ensures Length(raw) == |payload|
    ensures var sent := Encode(version, msgType, flags, seqNo, payload);
      sent[HEADER_BYTES + |payload|..] == Checksum(sent[..HEADER_BYTES + |payload|])
  {
    hide Checksum, Header, UnpackU32, UnpackU16;
    var sent := Encode(version, msgType, flags, seqNo, payload);
    var head := Header(version, msgType, flags, seqNo, |payload|);
    HeaderFields(version, msgType, flags, seqNo, |payload|, payload + Checksum(head + payload));
    assert sent == head + (payload + Checksum(head + payload));
    assert sent[..HEADER_BYTES + |payload|] == head + payload;
    assert sent[9..11] == raw[9..11] by {
      forall i | 9 <= i < 11 ensures sent[i] == raw[i] { SameOutside(sent, raw, lo, hi, i); }
    }
  }

  // A change that ends before position `end` leaves what follows alone and is a change of what precedes.
  lemma SplitBefore(a: bytes, b: bytes, lo: nat, hi: nat, end: nat)
    requires ChangedWithin(a, b, lo, hi) && hi <= end <= |a|
    ensures a[end..] == b[end..]
    ensures ChangedWithin(a[..end], b[..end], lo, hi)
  {
    assert a[end..] == a[hi..][end - hi..] && b[end..] == b[hi..][end - hi..];
    assert a[..end][hi..] == a[hi..][..end - hi] && b[..end][hi..] == b[hi..][..end - hi];
    assert a[..end][..lo] == a[..lo] && b[..end][..lo] == b[..lo];
  }

  // A changed frame whose LEN field is intact is invalid when the change stays within four bytes of the part the
  // CRC covers, or anywhere within the CRC field itself.
  lemma DetectsBurst(version: byte, msgType: byte, flags: byte, seqNo: nat, payload: bytes, raw: bytes, lo: nat, hi: nat)
    requires seqNo < U32 && |payload| < U16
    requires var sent := Encode(version, msgType, flags, seqNo, payload);
      raw != sent && ChangedWithin(sent, raw, lo, hi)
    requires (hi <= 9 || lo >= HEADER_BYTES)
    requires (hi <= HEADER_BYTES + |payload| && hi - lo <= 4) || lo >= HEADER_BYTES + |payload|
    ensures Parse(raw).Invalid?
  {
    hide Checksum, Encode, Length;
    var sent := Encode(version, msgType, flags, seqNo, payload);
    var end := HEADER_BYTES + |payload|;
    var body, body' := sent[..end], raw[..end];
    IntactLength(version, msgType, flags, seqNo, payload, raw, lo, hi);
    assert sent == body + sent[end..] && raw == body' + raw[end..];
    if hi <= end {
      SplitBefore(sent, raw, lo, hi, end);
      ChecksumDetectsBurst(body, body', lo, hi);
      assert raw[end..end + CRC_BYTES] == raw[end..];
    } else {
      assert body' == raw[..lo][..end] == sent[..lo][..end] == body;
      assert raw[end..end + CRC_BYTES] == raw[end..];
    }
  }

  // The bytes that a frame with its LEN field changed to `len` offers as its checksum happen to fit.
  predicate LengthCoincidence(raw: bytes)
    requires |raw| >= HEADER_BYTES + CRC_BYTES && Length(raw) + HEADER_BYTES + CRC_BYTES <= |raw|
  {
    var end := HEADER_BYTES + Length(raw);
    raw[end..end + CRC_BYTES] == Checksum(raw[..end])
  }

  // A change of LEN alone: a larger length is always caught, a smaller one exactly when the four bytes after the
  // shortened payload are not the checksum of what precedes them.
  lemma ChangedLength(version: byte, msgType: byte, flags: byte, seqNo: nat, payload: bytes, raw: bytes)
    requires seqNo < U32 && |payload| < U16
    requires var sent := Encode(version, msgType, flags, seqNo, payload);
      raw != sent && ChangedWithin(sent, raw, 9, HEADER_BYTES)
    ensures Parse(raw).Valid? <==> Length(raw) < |payload| && LengthCoincidence(raw)
    ensures Parse(raw).Valid? ==> Parse(raw).payload == payload[..Length(raw)]
  {
    hide Checksum, Header, UnpackU32, UnpackU16;
    var sent := Encode(version, msgType, flags, seqNo, payload);
    var head := Header(version, msgType, flags, seqNo, |payload|);
    HeaderFields(version, msgType, flags, seqNo, |payload|, payload + Checksum(head + payload));
    assert sent == head + (payload + Checksum(head + payload));
    assert sent[11..] == raw[11..];
    assert sent[..9] == raw[..9];
    assert raw[..2] == raw[..9][..2] == sent[..9][..2] == sent[..2];
    assert raw == raw[..9] + raw[9..11] + raw[11..] && sent == sent[..9] + sent[9..11] + sent[11..];
    if Length(raw) == |payload| {
      UnpackU16Injective(raw[9..11], sent[9..11]);
    }
    if Length(raw) < |payload| {
      var end := HEADER_BYTES + Length(raw);
      assert raw[11..end] == raw[11..][..Length(raw)] == sent[11..][..Length(raw)] == payload[..Length(raw)];
    }
  }

  predicate LengthByte(i: nat) {
    i == 9 || i == 10
  }

  // Every single-bit error the channel can inject: a flipped frame is accepted in exactly one situation, when the
  // flip lowers LEN and the bytes after the shortened payload happen to be its checksum.
  lemma FlipAccepted(version: byte, msgType: byte, flags: byte, seqNo: nat, payload: bytes, i: nat, k: nat)
    requires seqNo < U32 && |payload| < U16
    requires i < FrameSize(|payload|) && k < 8
    ensures var raw := Flip(Encode(version, msgType, flags, seqNo, payload), i, k);
      Parse(raw).Valid? <==> LengthByte(i) && Length(raw) < |payload| && LengthCoincidence(raw)
  {
    hide Encode, Parse, LengthCoincidence, Flip, Length;
    var sent := Encode(version, msgType, flags, seqNo, payload);
    var raw := Flip(sent, i, k);
    assert sent[..i] == raw[..i] && sent[i + 1..] == raw[i + 1..];
    if LengthByte(i) {
      assert sent[..9] == raw[..9] && sent[11..] == raw[11..];
      ChangedLength(version, msgType, flags, seqNo, payload, raw);
    } else {
      DetectsBurst(version, msgType, flags, seqNo, payload, raw, i, i + 1);
    }
  }

  lemma FourToZero()
    ensures FlipBit(4, 2) == 0
  {
    hide Bits;
    Crc32.BitsAre([false, false, true, false, false, false, false, false], 4);
    Crc32.BitsAre([false, false, false, false, false, false, false, false], 0);
    BitsInjective(FlipBit(4, 2), 0);
  }

  // The exception is real: this frame carries, as its payload, the checksum of its own empty version, and clearing
  // bit 2 of LEN (4 becomes 0) makes it parse as a valid empty frame.
  lemma LengthFlipCanPass(version: byte, msgType: byte, flags: byte, seqNo: nat)
    requires seqNo < U32
    ensures var payload := Checksum(Header(version, msgType, flags, seqNo, 0));
      Parse(Flip(Encode(version, msgType, flags, seqNo, payload), 10, 2))
      == Valid(version, msgType, flags, seqNo, [])
  {
    hide Checksum, PackU32, FlipBit;
    var head := Header(version, msgType, flags, seqNo, 4);
    var empty := Header(version, msgType, flags, seqNo, 0);
    var payload := Checksum(empty);
    var sent := Encode(version, msgType, flags, seqNo, payload);
    var raw := Flip(sent, 10, 2);
    FourToZero();
    assert head[..10] == empty[..10] && head[10] == 4 && empty[10] == 0;
    assert sent == head + payload + Checksum(head + payload);
    assert raw == empty + payload + Checksum(head + payload);
    ParseEncode(version, msgType, flags, seqNo, [], Checksum(head + payload));
    assert empty + [] == empty;
    assert Encode(version, msgType, flags, seqNo, []) == empty + payload;
  }

  // Bytes after a complete frame do not matter.
  lemma ParseIgnoresTail(raw: bytes, tail: bytes)
    requires |raw| >= HEADER_BYTES + CRC_BYTES && |raw| >= FrameSize(Length(raw))
    ensures Parse(raw + tail) == Parse(raw)
  {
    hide Checksum, UnpackU32, UnpackU16;
    var all := raw + tail;
    var end := HEADER_BYTES + Length(raw);
    assert all[9..11] == raw[9..11] && all[..2] == raw[..2] && all[5..9] == raw[5..9];
    assert all[..end] == raw[..end] && all[end..end + CRC_BYTES] == raw[end..end + CRC_BYTES];
    assert all[HEADER_BYTES..end] == raw[HEADER_BYTES..end];
  }

  lemma FlipBefore(code: bytes, tail: bytes, i: nat, k: nat)
    requires i < |code| && k < 8
    ensures Flip(code + tail, i, k) == Flip(code, i, k) + tail
  {
    hide FlipBit;
  }

  lemma FlipKeepsLength(code: bytes, i: nat, k: nat)
    requires HEADER_BYTES <= |code| && i < |code| && k < 8 && !LengthByte(i)
    ensures Length(Flip(code, i, k)) == Length(code)
  {
    hide Flip, UnpackU16;
    assert Flip(code, i, k)[9..11] == code[9..11];
  }

  lemma EncodedLength(p: Sent)
    ensures Length(Encoded(p)) == |p.payload|
  {
    hide Checksum, Header, UnpackU32, UnpackU16;
    var head := Header(p.version, p.msgType, p.flags, p.seqNo, |p.payload|);
    HeaderFields(p.version, p.msgType, p.flags, p.seqNo, |p.payload|, p.payload + Checksum(head + p.payload));
    assert Encoded(p) == head + (p.payload + Checksum(head + p.payload));
  }

  // One bit error outside LEN makes valid bytes invalid, unless it hits bytes after the frame; then nothing changes.
  lemma FlipOfValid(raw: bytes, i: nat, k: nat)
    requires Parse(raw).Valid? && i < |raw| && k < 8 && !LengthByte(i)
    ensures Parse(Flip(raw, i, k)).Valid? <==> i >= FrameSize(|Parse(raw).payload|)
    ensures Parse(Flip(raw, i, k)) == Parse(raw) || Parse(Flip(raw, i, k)).Invalid?
  {
    hide Parse, Encode, Flip, LengthCoincidence, Length;
    var p: Sent := Parse(raw);
    ParseIffPrefix(raw, p.version, p.msgType, p.flags, p.seqNo, p.payload);
    var code := Encoded(p);
    var tail := raw[|code|..];
    assert raw == code + tail;
    EncodedLength(p);
    if i < |code| {
      var flipped := Flip(code, i, k);
      FlipBefore(code, tail, i, k);
      FlipAccepted(p.version, p.msgType, p.flags, p.seqNo, p.payload, i, k);
      FlipKeepsLength(code, i, k);
      ParseIgnoresTail(flipped, tail);
    } else {
      var other := Flip(raw, i, k)[|code|..];
      assert Flip(raw, i, k) == code + other;
      ParseIffPrefix(Flip(raw, i, k), p.version, p.msgType, p.flags, p.seqNo, p.payload);
    }
  }

  // The length that LEN now declares fits, and the bytes after it happen to be the checksum.
  predicate LengthPasses(raw: bytes) {
    |raw| >= HEADER_BYTES + CRC_BYTES && FrameSize(Length(raw)) <= |raw| && LengthCoincidence(raw)
  }

  // A flip in LEN of any valid bytes, with or without bytes behind the frame, is accepted in that case only.
  lemma LengthFlipOfValid(raw: bytes, i: nat, k: nat)
    requires Parse(raw).Valid? && LengthByte(i) && i < |raw| && k < 8
    ensures Parse(Flip(raw, i, k)).Valid? <==> LengthPasses(Flip(raw, i, k))
  {
    hide Checksum, UnpackU16, UnpackU32, Flip;
    var flipped := Flip(raw, i, k);
    assert flipped[..2] == raw[..2];
  }

  // What the channel can make of an encoded frame: the frame itself or one bit flipped, unless the flip is one that
  // passes.
  ghost predicate IntactOrFlipped(sent: bytes, raw: bytes) {
    || raw == sent
    || exists i: nat, k: nat ::
         i < |sent| && k < 8 && raw == Flip(sent, i, k) && (LengthByte(i) ==> !LengthPasses(raw))
  }

  // Such bytes parse to exactly the frame that was sent, or not at all.
  lemma NothingElseGetsThrough(p: Sent, raw: bytes)
    requires IntactOrFlipped(Encoded(p), raw)
    ensures Parse(raw) == p || (raw != Encoded(p) && Parse(raw).Invalid?)
    ensures raw == Encoded(p) ==> Parse(raw) == p
  {
    hide Parse, Encode, Flip, LengthCoincidence, Length;
    if raw == Encoded(p) {
      ParseEncode(p.version, p.msgType, p.flags, p.seqNo, p.payload, []);
      assert raw + [] == raw;
    } else {
      var i: nat, k: nat :|
        i < |Encoded(p)| && k < 8 && raw == Flip(Encoded(p), i, k) && (LengthByte(i) ==> !LengthPasses(raw));
      FlipAccepted(p.version, p.msgType, p.flags, p.seqNo, p.payload, i, k);
    }
  }
}
