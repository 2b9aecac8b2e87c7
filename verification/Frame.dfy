/** The TWCP frame: SYNC(2) VER(1) TYPE(1) FLAGS(1) SEQ(4) LEN(2) PAYLOAD(LEN) CRC32(4). */
module Frame {
  import opened Bytes
  import Crc32

  const SYNC: bytes := [0xAA, 0x55]
  const VERSION: byte := 1
  const HEADER_BYTES: nat := 11
  const CRC_BYTES: nat := 4
  const MAX_PAYLOAD: nat := 0xFFFF

  datatype Built = Built(raw: bytes) | PayloadTooLarge(size: nat)

  datatype FrameError =
    | TooShort(got: nat)
    | BadSync(sync: bytes)
    | Truncated(got: nat, need: nat)
    | CrcMismatch(received: bytes, computed: bytes)

  datatype Parsed =
    | Invalid(error: FrameError)
    | Valid(version: byte, msgType: byte, flags: byte, seqNo: nat, payload: bytes)

  function FrameSize(payloadLen: nat): nat {
    HEADER_BYTES + payloadLen + CRC_BYTES
  }

  function Header(version: byte, msgType: byte, flags: byte, seqNo: nat, len: nat): (h: bytes)
    requires seqNo < U32 && len < U16
    ensures |h| == HEADER_BYTES
  {
    SYNC + [version, msgType, flags] + PackU32(seqNo) + PackU16(len)
  }

  function Checksum(body: bytes): (c: bytes)
    ensures |c| == CRC_BYTES
  {
    Crc32.Pack(Crc32.Crc(body))
  }

  // The frame with these fields.
  function Encode(version: byte, msgType: byte, flags: byte, seqNo: nat, payload: bytes): (raw: bytes)
    requires seqNo < U32 && |payload| < U16
    ensures |raw| == FrameSize(|payload|)
  {
    var body := Header(version, msgType, flags, seqNo, |payload|) + payload;
    body + Checksum(body)
  }

  // The fields a sender can put in a frame.
  type Sent = p: Parsed | p.Valid? && p.seqNo < U32 && |p.payload| <= MAX_PAYLOAD
    witness Valid(VERSION, 0, 0, 0, [])

  function Encoded(p: Sent): (raw: bytes)
    ensures |raw| == FrameSize(|p.payload|)
  {
    Encode(p.version, p.msgType, p.flags, p.seqNo, p.payload)
  }

  function Length(raw: bytes): (n: nat)
    requires |raw| >= HEADER_BYTES
    ensures n < U16
  {
    UnpackU16(raw[9..11])
  }

  function Parse(raw: bytes): (p: Parsed)
    ensures p.Valid? ==> p.seqNo < U32 && |p.payload| <= MAX_PAYLOAD && FrameSize(|p.payload|) <= |raw|
    ensures p.Valid? ==> p.payload == raw[HEADER_BYTES..HEADER_BYTES + |p.payload|]
  {
    if |raw| < HEADER_BYTES + CRC_BYTES then
      Invalid(TooShort(|raw|))
    else if raw[..2] != SYNC then
      Invalid(BadSync(raw[..2]))
    else
      var len := Length(raw);
      var end := HEADER_BYTES + len;
      if |raw| < end + CRC_BYTES then
        Invalid(Truncated(|raw|, end + CRC_BYTES))
      else if raw[end..end + CRC_BYTES] != Checksum(raw[..end]) then
        Invalid(CrcMismatch(raw[end..end + CRC_BYTES], Checksum(raw[..end])))
      else
        Valid(raw[2], raw[3], raw[4], UnpackU32(raw[5..9]), raw[HEADER_BYTES..end])
  }

  lemma HeaderFields(version: byte, msgType: byte, flags: byte, seqNo: nat, len: nat, rest: bytes)
    requires seqNo < U32 && len < U16
    ensures var raw := Header(version, msgType, flags, seqNo, len) + rest;
      && raw[..2] == SYNC && raw[2] == version && raw[3] == msgType && raw[4] == flags
      && UnpackU32(raw[5..9]) == seqNo && Length(raw) == len
      && raw[5..9] == PackU32(seqNo) && raw[9..11] == PackU16(len)
  {
    hide PackU32, PackU16;
    var raw := Header(version, msgType, flags, seqNo, len) + rest;
    assert raw[5..9] == PackU32(seqNo);
    assert raw[9..11] == PackU16(len);
  }

  // Any eleven bytes that begin with the sync word are the header of their own fields.
  lemma HeaderOfFields(raw: bytes)
    requires |raw| >= HEADER_BYTES && raw[..2] == SYNC
    ensures raw[..11] == Header(raw[2], raw[3], raw[4], UnpackU32(raw[5..9]), Length(raw))
  {
    hide PackU32, PackU16, UnpackU16, UnpackU32;
    UnpackU32Injective(raw[5..9], PackU32(UnpackU32(raw[5..9])));
    UnpackU16Injective(raw[9..11], PackU16(Length(raw)));
    assert raw[..11] == raw[..2] + [raw[2], raw[3], raw[4]] + raw[5..9] + raw[9..11];
  }

  // Parsing reads back every field of an encoded frame, whatever bytes follow it.
  lemma ParseEncode(version: byte, msgType: byte, flags: byte, seqNo: nat, payload: bytes, tail: bytes)
    requires seqNo < U32 && |payload| < U16
    ensures Parse(Encode(version, msgType, flags, seqNo, payload) + tail)
         == Valid(version, msgType, flags, seqNo, payload)
  {
    hide Checksum, Header, UnpackU32, UnpackU16;
    var head := Header(version, msgType, flags, seqNo, |payload|);
    var raw := Encode(version, msgType, flags, seqNo, payload) + tail;
    HeaderFields(version, msgType, flags, seqNo, |payload|, payload + Checksum(head + payload) + tail);
    assert raw == head + (payload + Checksum(head + payload) + tail);
    var end := HEADER_BYTES + |payload|;
    assert raw[..end] == head + payload;
    assert raw[end..end + CRC_BYTES] == Checksum(head + payload);
    assert raw[HEADER_BYTES..end] == payload;
  }

  // A frame is built for every payload that fits, and parses to the masked fields.
  function Build(msgType: int, seqNo: int, payload: bytes, flags: int): (r: Built)
    ensures r.Built? <==> |payload| <= MAX_PAYLOAD
    ensures r.Built? ==> |r.raw| == FrameSize(|payload|)
    ensures r.Built? ==> Parse(r.raw) == Valid(VERSION, msgType % 0x100, flags % 0x100, seqNo % U32, payload)
  {
    if |payload| > MAX_PAYLOAD then
      PayloadTooLarge(|payload|)
    else
      var raw := Encode(VERSION, msgType % 0x100, flags % 0x100, seqNo % U32, payload);
      ParseEncode(VERSION, msgType % 0x100, flags % 0x100, seqNo % U32, payload, []);
      assert raw + [] == raw;
      Built(raw)
  }

  // Bytes parse as valid with these fields exactly when they begin with the frame that encodes them.
  lemma ParseIffPrefix(raw: bytes, version: byte, msgType: byte, flags: byte, seqNo: nat, payload: bytes)
    ensures Parse(raw) == Valid(version, msgType, flags, seqNo, payload)
       <==> seqNo < U32 && |payload| < U16 && Encode(version, msgType, flags, seqNo, payload) <= raw
  {
    hide Checksum, Header, UnpackU32, UnpackU16;
    if Parse(raw) == Valid(version, msgType, flags, seqNo, payload) {
      HeaderOfFields(raw);
      var end := HEADER_BYTES + |payload|;
      assert raw[..end] == raw[..11] + payload;
      assert raw[..end + CRC_BYTES] == raw[..end] + raw[end..end + CRC_BYTES];
      assert Encode(version, msgType, flags, seqNo, payload) == raw[..end + CRC_BYTES];
    }
    if seqNo < U32 && |payload| < U16 && Encode(version, msgType, flags, seqNo, payload) <= raw {
      var code := Encode(version, msgType, flags, seqNo, payload);
      ParseEncode(version, msgType, flags, seqNo, payload, raw[|code|..]);
      assert raw == code + raw[|code|..];
    }
  }

  // The round trip a caller sees: fields come back masked to their widths, and oversized payloads raise.
  lemma ParseBuild(msgType: int, seqNo: int, payload: bytes, flags: int, tail: bytes)
    requires |payload| <= MAX_PAYLOAD
    ensures Build(msgType, seqNo, payload, flags).Built?
    ensures Parse(Build(msgType, seqNo, payload, flags).raw + tail)
         == Valid(VERSION, msgType % 0x100, flags % 0x100, seqNo % U32, payload)
  {
    ParseEncode(VERSION, msgType % 0x100, flags % 0x100, seqNo % U32, payload, tail);
  }

  // What parses as version 1 was built: it begins with the frame `Build` makes of the parsed fields.
  lemma BuildParse(raw: bytes)
    requires Parse(raw).Valid? && Parse(raw).version == VERSION
    ensures var p := Parse(raw);
      Build(p.msgType, p.seqNo, p.payload, p.flags).Built? && Build(p.msgType, p.seqNo, p.payload, p.flags).raw <= raw
  {
    hide Parse, Encode;
    var p := Parse(raw);
    ParseIffPrefix(raw, p.version, p.msgType, p.flags, p.seqNo, p.payload);
  }

  // Every field of a built frame lies where the format says, most significant byte first: the number, the length, and
  // the CRC over all bytes before it.
  lemma BuiltLayout(msgType: int, seqNo: int, payload: bytes, flags: int)
    requires |payload| <= 0xFFFF
    ensures Build(msgType, seqNo, payload, flags).Built?
    ensures var raw, end := Build(msgType, seqNo, payload, flags).raw, 11 + |payload|;
      && |raw| == end + 4
      && raw[0] == 0xAA && raw[1] == 0x55 && raw[2] == 1 && raw[3] == msgType % 0x100 && raw[4] == flags % 0x100
      && raw[5] as int * 0x100_0000 + raw[6] as int * 0x1_0000 + raw[7] as int * 0x100 + raw[8] as int
         == seqNo % 0x1_0000_0000
      && raw[9] as int * 0x100 + raw[10] as int == |payload|
      && raw[11..end] == payload
      && raw[end] as int * 0x100_0000 + raw[end + 1] as int * 0x1_0000 + raw[end + 2] as int * 0x100
         + raw[end + 3] as int == Crc32.Value(Crc32.Crc(raw[..end]), 32)
  {
    hide Parse, PackU32, PackU16, Crc32.Pack, Crc32.Crc, Crc32.Value;
    var n, len := seqNo % U32, |payload|;
    var head := Header(VERSION, msgType % 0x100, flags % 0x100, n, len);
    var raw, end := Build(msgType, seqNo, payload, flags).raw, 11 + len;
    assert raw == head + payload + Crc32.Pack(Crc32.Crc(head + payload));
    assert raw[..end] == head + payload;
    assert raw[5..9] == PackU32(n) && raw[9..11] == PackU16(len);
    FieldsAreBigEndian(n, len);
    Crc32.PackIsBigEndian(Crc32.Crc(head + payload));
  }

  // One whole frame, byte by byte: an empty one of type 0x30 under number 0.
  lemma EmptyFrameBytes()
    ensures Build(0x30, 0, [], 0)
         == Built([0xAA, 0x55, 0x01, 0x30, 0, 0, 0, 0, 0, 0, 0, 0xB5, 0xDE, 0x59, 0x12])
  {
    hide Parse, Crc32.Pack, Crc32.Crc;
    assert PackU32(0) == [0, 0, 0, 0] && PackU16(0) == [0, 0];
    var head: bytes := [0xAA, 0x55, 0x01, 0x30, 0, 0, 0, 0, 0, 0, 0];
    assert Header(1, 0x30, 0, 0, 0) == head;
    assert head + [] == head;
    Crc32.HeaderValue();
    Crc32.HeaderValuePacked();
    assert Build(0x30, 0, [], 0) == Built(head + [0xB5, 0xDE, 0x59, 0x12]);
  }

  // The length field, and where the payload ends.
  function LengthField(raw: bytes): nat
    requires |raw| >= 11
  {
    raw[9] as int * 0x100 + raw[10] as int
  }

  // The checksum field as a number.
  function CrcField(raw: bytes, end: nat): nat
    requires end + 4 <= |raw|
  {
    raw[end] as int * 0x100_0000 + raw[end + 1] as int * 0x1_0000 + raw[end + 2] as int * 0x100 + raw[end + 3] as int
  }

  lemma ChecksumIsNumber(raw: bytes, end: nat)
    requires end + 4 <= |raw|
    ensures raw[end..end + 4] == Checksum(raw[..end]) <==> CrcField(raw, end) == Crc32.Value(Crc32.Crc(raw[..end]), 32)
  {
    hide Crc32.Pack, Crc32.Crc, Crc32.Value, UnpackU32;
    UnpackIsBigEndian(raw[end..end + 4]);
    UnpackIsBigEndian(Checksum(raw[..end]));
    Crc32.PackIsBigEndian(Crc32.Crc(raw[..end]));
    if CrcField(raw, end) == Crc32.Value(Crc32.Crc(raw[..end]), 32) {
      UnpackU32Injective(raw[end..end + 4], Checksum(raw[..end]));
    }
  }

  lemma TestsMean(raw: bytes)
    requires |raw| >= 11
    ensures raw[..2] == SYNC <==> raw[0] == 0xAA && raw[1] == 0x55
    ensures Length(raw) == LengthField(raw)
  {
    UnpackIsBigEndian(raw[9..11]);
  }

  // What a buffer parses to, in the order of the tests: the four errors, and a valid frame exactly when the checksum
  // field is the CRC of what is before it.
  lemma ParseOutcome(raw: bytes)
    ensures |raw| < 15 <==> Parse(raw).Invalid? && Parse(raw).error.TooShort?
    ensures |raw| >= 15 && (raw[0] != 0xAA || raw[1] != 0x55) <==> Parse(raw).Invalid? && Parse(raw).error.BadSync?
    ensures |raw| >= 15 && raw[0] == 0xAA && raw[1] == 0x55 && |raw| < 15 + LengthField(raw) <==>
            Parse(raw).Invalid? && Parse(raw).error.Truncated?
    ensures |raw| >= 15 && raw[0] == 0xAA && raw[1] == 0x55 && |raw| >= 15 + LengthField(raw)
            && CrcField(raw, 11 + LengthField(raw)) == Crc32.Value(Crc32.Crc(raw[..11 + LengthField(raw)]), 32) <==>
            Parse(raw).Valid?
  {
    hide Checksum, Crc32.Crc, Crc32.Value, CrcField, Length, LengthField;
    if |raw| >= 15 {
      TestsMean(raw);
      if |raw| >= 15 + LengthField(raw) {
        ChecksumIsNumber(raw, 11 + LengthField(raw));
      }
    }
  }

  // Where the fields of a valid frame are read.
  lemma ParsedLayout(raw: bytes)
    requires Parse(raw).Valid?
    ensures var p := Parse(raw);
      && |raw| >= 15 && p.version == raw[2] && p.msgType == raw[3] && p.flags == raw[4]
      && p.seqNo == raw[5] as int * 0x100_0000 + raw[6] as int * 0x1_0000 + raw[7] as int * 0x100 + raw[8] as int
      && |p.payload| == raw[9] as int * 0x100 + raw[10] as int && p.payload <= raw[11..]
  {
    hide Checksum;
    UnpackIsBigEndian(raw[5..9]);
    UnpackIsBigEndian(raw[9..11]);
  }
}
