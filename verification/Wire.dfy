/** Bytes on the wire: fixed-width integers and the two SHP headers that prefix a video datagram. */
module Wire {
  import opened Arith

  type byte = b: int | 0 <= b < 256
  type u8 = n: int | 0 <= n < 0x100
  type u16 = n: int | 0 <= n < 0x1_0000
  type u32 = n: int | 0 <= n < 0x1_0000_0000
  type u64 = n: int | 0 <= n < 0x1_0000_0000_0000_0000

  datatype Option<+T> = None | Some(value: T)

  // ---- Fixed-width integers ----

  function Pow256(n: nat): (p: nat)
    ensures p > 0
  {
    if n == 0 then 1 else 256 * Pow256(n - 1)
  }

  /** The low `width` bytes of `value`, most significant first. */
  function ToBigEndian(value: nat, width: nat): (bytes: seq<byte>)
    ensures |bytes| == width
    decreases width
  {
    if width == 0 then [] else ToBigEndian(value / 256, width - 1) + [value % 256]
  }

  function FromBigEndian(bytes: seq<byte>): (value: nat)
    ensures value < Pow256(|bytes|)
  {
    if bytes == [] then 0
    else FromBigEndian(bytes[..|bytes| - 1]) * 256 + bytes[|bytes| - 1]
  }

  lemma ModuloByteStep(value: nat, p: nat)
    requires p > 0
    ensures (value / 256 % p) * 256 + value % 256 == value % (256 * p)
  {
    var q, r := value / 256, value % 256;
    var k, m := q / p, q % p;
    assert value == (256 * p) * k + (256 * m + r) by {
      assert q == p * k + m;
      assert 256 * (p * k) == (256 * p) * k;
    }
    assert 0 <= 256 * m + r < 256 * p;
    ModuloUnique(256 * p, k, 256 * m + r);
  }

  /** Writing keeps exactly the low `width` bytes, and reading gets them back. */
  lemma {:induction false} BigEndianRoundTrip(value: nat, width: nat)
    ensures FromBigEndian(ToBigEndian(value, width)) == value % Pow256(width)
    decreases width
  {
    if width > 0 {
      BigEndianRoundTrip(value / 256, width - 1);
      var bytes := ToBigEndian(value, width);
      assert bytes[..width - 1] == ToBigEndian(value / 256, width - 1);
      ModuloByteStep(value, Pow256(width - 1));
    }
  }

  /** Every byte string is the encoding of the number it reads as. */
  lemma {:induction false} BigEndianCanonical(bytes: seq<byte>)
    ensures ToBigEndian(FromBigEndian(bytes), |bytes|) == bytes
  {
    if bytes != [] {
      var front, last := bytes[..|bytes| - 1], bytes[|bytes| - 1];
      BigEndianCanonical(front);
      var value := FromBigEndian(bytes);
      assert value / 256 == FromBigEndian(front) && value % 256 == last;
      assert bytes == front + [last];
    }
  }

  // ---- Numbers by their places ----

  function Number2(b: seq<byte>): nat
    requires |b| == 2
  {
    (b[0] as int) * 256 + b[1]
  }

  function Number3(b: seq<byte>): nat
    requires |b| == 3
  {
    (b[0] as int) * 65536 + (b[1] as int) * 256 + b[2]
  }

  function Number4(b: seq<byte>): nat
    requires |b| == 4
  {
    (b[0] as int) * 16777216 + (b[1] as int) * 65536 + (b[2] as int) * 256 + b[3]
  }

  function Number8(b: seq<byte>): nat
    requires |b| == 8
  {
    Number4(b[..4]) * 4294967296 + Number4(b[4..])
  }

  lemma OneMoreByte(b: seq<byte>)
    requires b != []
    ensures FromBigEndian(b) == FromBigEndian(b[..|b| - 1]) * 256 + b[|b| - 1]
  {
  }

  lemma ByPlaces2(b: seq<byte>)
    requires |b| == 2
    ensures FromBigEndian(b) == Number2(b)
  {
    assert b[..1][..0] == [];
    OneMoreByte(b[..1]);
  }

  lemma ByPlaces3(b: seq<byte>)
    requires |b| == 3
    ensures FromBigEndian(b) == Number3(b)
  {
    hide FromBigEndian;
    OneMoreByte(b);
    ByPlaces2(b[..2]);
  }

  lemma ByPlaces4(b: seq<byte>)
    requires |b| == 4
    ensures FromBigEndian(b) == Number4(b)
  {
    hide FromBigEndian;
    OneMoreByte(b);
    ByPlaces3(b[..3]);
  }

  lemma ByPlaces8(b: seq<byte>)
    requires |b| == 8
    ensures FromBigEndian(b) == Number8(b)
  {
    hide FromBigEndian;
    ByPlaces4(b[..4]);
    assert b[..5][..4] == b[..4] && b[..6][..5] == b[..5] && b[..7][..6] == b[..6];
    OneMoreByte(b[..5]);
    OneMoreByte(b[..6]);
    OneMoreByte(b[..7]);
    OneMoreByte(b);
  }

  // ---- The common header ----

  datatype ChannelId = Video | Audio | Input | Clipboard | File | Control

  function ChannelBits(c: ChannelId): u8 {
    match c
    case Video => 0
    case Audio => 1
    case Input => 2
    case Clipboard => 3
    case File => 4
    case Control => 5
  }

  function ChannelFromBits(bits: nat): Option<ChannelId> {
    if bits == 0 then Some(Video)
    else if bits == 1 then Some(Audio)
    else if bits == 2 then Some(Input)
    else if bits == 3 then Some(Clipboard)
    else if bits == 4 then Some(File)
    else if bits == 5 then Some(Control)
    else None
  }

  const SHP_VERSION := 1
  const COMMON_HEADER_LEN := 9
  const VIDEO_HEADER_LEN := 12
  const HEADERS_LEN := COMMON_HEADER_LEN + VIDEO_HEADER_LEN
  /** 2^24: the frame id travels in 24 bits. */
  const FRAME_IDS := 0x100_0000
  /** 2^32: timestamps travel in 32 bits. */
  const TIMESTAMPS := 0x1_0000_0000

  datatype CommonHeader = CommonHeader(
    channel: ChannelId, fragment: bool, lastFragment: bool, sequence: u16, timestamp: u64, payloadLen: u16)

  function Flag(b: bool): u8 { if b then 1 else 0 }

  /** `VER(2) | CHANNEL(4) | FLAGS(2)` */
  function FirstByte(h: CommonHeader): byte {
    SHP_VERSION * 64 + ChannelBits(h.channel) * 4 + Flag(h.fragment) * 2 + Flag(h.lastFragment)
  }

  lemma FirstByteFields(h: CommonHeader)
    ensures FirstByte(h) / 64 == SHP_VERSION
    ensures ChannelFromBits(FirstByte(h) / 4 % 16) == Some(h.channel)
    ensures FirstByte(h) / 2 % 2 == Flag(h.fragment) && FirstByte(h) % 2 == Flag(h.lastFragment)
  {
    var c := ChannelBits(h.channel);
    assert FirstByte(h) / 4 == 16 * SHP_VERSION + c;
    assert (16 + c) % 16 == c;
  }

  lemma FirstByteCanonical(b: byte, channel: ChannelId)
    requires b / 64 == SHP_VERSION && ChannelFromBits(b / 4 % 16) == Some(channel)
    ensures SHP_VERSION * 64 + ChannelBits(channel) * 4 + b / 2 % 2 * 2 + b % 2 == b
  {
    assert ChannelBits(channel) == b / 4 % 16;
  }

  function EncodeCommon(h: CommonHeader): (bytes: seq<byte>)
    ensures |bytes| == COMMON_HEADER_LEN
  {
    [FirstByte(h)]
    + ToBigEndian(h.sequence, 2) + ToBigEndian(h.timestamp, 4) + ToBigEndian(h.payloadLen, 2)
  }

  function DecodeCommon(data: seq<byte>): (r: Option<CommonHeader>)
    ensures r.Some? ==> |data| >= COMMON_HEADER_LEN
  {
    if |data| < COMMON_HEADER_LEN then None
    else if data[0] / 64 != SHP_VERSION then None
    else
      var channel := ChannelFromBits(data[0] / 4 % 16);
      if channel.None? then None
      else
        var sequence, timestamp, payloadLen :=
          FromBigEndian(data[1..3]), FromBigEndian(data[3..7]), FromBigEndian(data[7..9]);
        assert Pow256(2) == 0x1_0000 && Pow256(4) == TIMESTAMPS;
        Some(CommonHeader(channel.value, data[0] / 2 % 2 == 1, data[0] % 2 == 1,
                          sequence, timestamp, payloadLen))
  }

  /** Decoding undoes encoding whatever follows, except that a timestamp keeps only 32 bits. */
  lemma CommonRoundTrip(h: CommonHeader, rest: seq<byte>)
    ensures DecodeCommon(EncodeCommon(h) + rest) == Some(h.(timestamp := h.timestamp % TIMESTAMPS))
  {
    hide ToBigEndian, FromBigEndian, ChannelFromBits, ChannelBits;
    var data := EncodeCommon(h) + rest;
    FirstByteFields(h);
    assert data[0] == FirstByte(h);
    assert data[1..3] == ToBigEndian(h.sequence, 2);
    assert data[3..7] == ToBigEndian(h.timestamp, 4);
    assert data[7..9] == ToBigEndian(h.payloadLen, 2);
    BigEndianRoundTrip(h.sequence, 2);
    BigEndianRoundTrip(h.timestamp, 4);
    BigEndianRoundTrip(h.payloadLen, 2);
    assert Pow256(2) == 0x1_0000 && Pow256(4) == TIMESTAMPS;
  }

  /** No two byte strings decode to the same header: every accepted header is in canonical form. */
  lemma CommonCanonical(data: seq<byte>)
    requires DecodeCommon(data).Some?
    ensures EncodeCommon(DecodeCommon(data).value) == data[..COMMON_HEADER_LEN]
  {
    hide ToBigEndian, FromBigEndian, ChannelFromBits, ChannelBits;
    BigEndianCanonical(data[1..3]);
    BigEndianCanonical(data[3..7]);
    BigEndianCanonical(data[7..9]);
    FirstByteCanonical(data[0], ChannelFromBits(data[0] / 4 % 16).value);
    assert data[..9] == [data[0]] + data[1..3] + data[3..7] + data[7..9];
  }

  /** The nine bytes by their places: what is accepted, and what each field is read from. */
  lemma CommonLayout(data: seq<byte>)
    ensures DecodeCommon(data).Some? <==> |data| >= 9 && 64 <= data[0] < 88
    ensures DecodeCommon(data).Some? ==>
              var h := DecodeCommon(data).value;
              && (h.channel == Video <==> data[0] / 4 == 16) && (h.channel == Audio <==> data[0] / 4 == 17)
              && (h.channel == Input <==> data[0] / 4 == 18) && (h.channel == Clipboard <==> data[0] / 4 == 19)
              && (h.channel == File <==> data[0] / 4 == 20) && (h.channel == Control <==> data[0] / 4 == 21)
              && (h.fragment <==> data[0] % 4 >= 2) && (h.lastFragment <==> data[0] % 2 == 1)
              && h.sequence == Number2(data[1..3])
              && h.timestamp == Number4(data[3..7])
              && h.payloadLen == Number2(data[7..9])
  {
    hide FromBigEndian, Number2, Number4;
    if |data| >= 9 {
      ByPlaces2(data[1..3]);
      ByPlaces4(data[3..7]);
      ByPlaces2(data[7..9]);
    }
  }

  // ---- The video header ----

  datatype Codec = H264 | H265 | Av1 | Raw
  datatype FrameType = Predicted | Idr | IntraRefresh
  datatype Priority = DropEligible | Normal | High

  function CodecBits(c: Codec): u8 {
    match c case H264 => 0 case H265 => 1 case Av1 => 2 case Raw => 3
  }

  function CodecFromBits(bits: nat): Option<Codec> {
    if bits == 0 then Some(H264) else if bits == 1 then Some(H265)
    else if bits == 2 then Some(Av1) else if bits == 3 then Some(Raw) else None
  }

  function FrameTypeBits(t: FrameType): u8 {
    match t case Predicted => 0 case Idr => 1 case IntraRefresh => 2
  }

  function FrameTypeFromBits(bits: nat): Option<FrameType> {
    if bits == 0 then Some(Predicted) else if bits == 1 then Some(Idr)
    else if bits == 2 then Some(IntraRefresh) else None
  }

  function PriorityBits(p: Priority): u8 {
    match p case DropEligible => 0 case Normal => 1 case High => 2
  }

  function PriorityFromBits(bits: nat): Option<Priority> {
    if bits == 0 then Some(DropEligible) else if bits == 1 then Some(Normal)
    else if bits == 2 then Some(High) else None
  }

  datatype VideoHeader = VideoHeader(
    frameId: u64, fragIndex: u8, totalFrags: u8, codec: Codec, frameType: FrameType,
    priority: Priority, monitorId: u8, marker: bool, encodeTs: u64)

  /** None stands for the two encoding errors: a frame id over 24 bits, a monitor id over 4. */
  function EncodeVideo(h: VideoHeader): (r: Option<seq<byte>>)
    ensures r.Some? <==> h.frameId < FRAME_IDS && h.monitorId < 16
    ensures r.Some? ==> |r.value| == VIDEO_HEADER_LEN
  {
    if h.frameId >= FRAME_IDS || h.monitorId >= 16 then None
    else
      Some(ToBigEndian(h.frameId, 3)
           + [h.fragIndex, h.totalFrags,
              CodecBits(h.codec) * 16 + FrameTypeBits(h.frameType) * 4 + PriorityBits(h.priority),
              h.monitorId * 16 + Flag(h.marker) * 8,
              0]
           + ToBigEndian(h.encodeTs, 4))
  }

  function DecodeVideo(data: seq<byte>): (r: Option<VideoHeader>)
    ensures r.Some? ==> |data| >= VIDEO_HEADER_LEN && r.value.frameId < FRAME_IDS && r.value.monitorId < 16
  {
    if |data| < VIDEO_HEADER_LEN then None
    else if data[7] != 0 || data[6] % 8 != 0 then None
    else
      var codec, frameType, priority :=
        CodecFromBits(data[5] / 16), FrameTypeFromBits(data[5] / 4 % 4), PriorityFromBits(data[5] % 4);
      if codec.None? || frameType.None? || priority.None? then None
      else
        var frameId, ts := FromBigEndian(data[0..3]), FromBigEndian(data[8..12]);
        assert Pow256(3) == FRAME_IDS && Pow256(4) == TIMESTAMPS;
        Some(VideoHeader(frameId, data[3], data[4], codec.value, frameType.value, priority.value,
                         data[6] / 16, data[6] / 8 % 2 == 1, ts))
  }

  lemma VideoRoundTrip(h: VideoHeader, rest: seq<byte>)
    requires h.frameId < FRAME_IDS && h.monitorId < 16
    ensures DecodeVideo(EncodeVideo(h).value + rest) == Some(h.(encodeTs := h.encodeTs % TIMESTAMPS))
  {
    hide ToBigEndian, FromBigEndian;
    var data := EncodeVideo(h).value + rest;
    assert data[0..3] == ToBigEndian(h.frameId, 3);
    assert data[8..12] == ToBigEndian(h.encodeTs, 4);
    BigEndianRoundTrip(h.frameId, 3);
    BigEndianRoundTrip(h.encodeTs, 4);
    assert Pow256(3) == FRAME_IDS && Pow256(4) == TIMESTAMPS;
  }

  lemma VideoCanonical(data: seq<byte>)
    requires DecodeVideo(data).Some?
    ensures EncodeVideo(DecodeVideo(data).value) == Some(data[..VIDEO_HEADER_LEN])
  {
    hide ToBigEndian, FromBigEndian;
    BigEndianCanonical(data[0..3]);
    BigEndianCanonical(data[8..12]);
    assert data[..12] == data[0..3] + [data[3], data[4], data[5], data[6], data[7]] + data[8..12];
  }

  /** The twelve bytes by their places. */
  lemma VideoLayout(data: seq<byte>)
    ensures DecodeVideo(data).Some? <==>
            && |data| >= 12 && data[7] == 0 && data[6] % 8 == 0
            && data[5] < 64 && data[5] / 4 % 4 != 3 && data[5] % 4 != 3
    ensures DecodeVideo(data).Some? ==>
              var h := DecodeVideo(data).value;
              && h.frameId == Number3(data[0..3]) && h.fragIndex == data[3] && h.totalFrags == data[4]
              && (h.codec == H264 <==> data[5] / 16 == 0) && (h.codec == H265 <==> data[5] / 16 == 1)
              && (h.codec == Av1 <==> data[5] / 16 == 2) && (h.codec == Raw <==> data[5] / 16 == 3)
              && (h.frameType == Predicted <==> data[5] / 4 % 4 == 0) && (h.frameType == Idr <==> data[5] / 4 % 4 == 1)
              && (h.priority == DropEligible <==> data[5] % 4 == 0) && (h.priority == Normal <==> data[5] % 4 == 1)
              && h.monitorId == data[6] / 16 && (h.marker <==> data[6] % 16 >= 8)
              && h.encodeTs == Number4(data[8..12])
  {
    hide FromBigEndian, Number3, Number4;
    if |data| >= 12 {
      ByPlaces3(data[0..3]);
      ByPlaces4(data[8..12]);
    }
  }
}
