/** Splitting an encoded frame into datagrams, and rebuilding frames from an unreliable network. */
module Packetize {
  import opened Arith
  import opened Wire
  import opened Chunking

  datatype Packet = Packet(data: seq<byte>, codec: Codec, frameId: u64, captureTs: u64, frameType: FrameType)

  datatype PacketizeError =
    | TooManyFragments(count: nat)
    | PayloadTooLarge
    | DatagramTooSmall(maxDatagram: nat)

  datatype FragmentResult = Ok(datagrams: seq<seq<byte>>) | Err(error: PacketizeError)

  const MAX_FRAGMENTS := 255
  const MAX_BUFFERED_FRAMES := 32

  /** What a packet looks like after a trip over the wire: 24 bits of id, 32 bits of timestamp. */
  function OnWire(p: Packet): Packet {
    p.(frameId := p.frameId % FRAME_IDS, captureTs := p.captureTs % TIMESTAMPS)
  }

  // ---- Fragmentation ----

  /** Datagram `d` decodes to fragment `i` of `p` cut in chunks of `size` bytes. */
  ghost predicate IsFragment(d: seq<byte>, p: Packet, seqStart: u16, size: nat, i: nat)
    requires size > 0
  {
    var total := |Chunks(p.data, size)|;
    && i < total <= 255
    && |d| >= HEADERS_LEN
    && d[HEADERS_LEN..] == Chunks(p.data, size)[i]
    && VIDEO_HEADER_LEN + |d[HEADERS_LEN..]| < 0x1_0000
    && DecodeCommon(d) == Some(CommonHeader(
         Video, total > 1, i + 1 == total, (seqStart + i) % 0x1_0000, p.captureTs % TIMESTAMPS,
         VIDEO_HEADER_LEN + |d[HEADERS_LEN..]|))
    && DecodeVideo(d[COMMON_HEADER_LEN..]) == Some(VideoHeader(
         p.frameId % FRAME_IDS, i, total, p.codec, p.frameType, High, 0, i + 1 == total,
         p.captureTs % TIMESTAMPS))
  }

  lemma FragmentDecodes(common: CommonHeader, video: VideoHeader, chunk: seq<byte>, d: seq<byte>)
    requires video.frameId < FRAME_IDS && video.monitorId < 16
    requires common.timestamp < TIMESTAMPS && video.encodeTs < TIMESTAMPS
    requires d == EncodeCommon(common) + EncodeVideo(video).value + chunk
    ensures |d| == HEADERS_LEN + |chunk| && d[HEADERS_LEN..] == chunk
    ensures DecodeCommon(d) == Some(common) && DecodeVideo(d[COMMON_HEADER_LEN..]) == Some(video)
  {
    hide DecodeCommon, DecodeVideo, EncodeCommon, EncodeVideo;
    var c, v := EncodeCommon(common), EncodeVideo(video).value;
    SplitHeaders(c, v, chunk);
    CommonRoundTrip(common, v + chunk);
    VideoRoundTrip(video, chunk);
  }

  lemma SplitHeaders(common: seq<byte>, video: seq<byte>, chunk: seq<byte>)
    requires |common| == COMMON_HEADER_LEN && |video| == VIDEO_HEADER_LEN
    ensures var d := common + video + chunk;
            && d == common + (video + chunk)
            && d[COMMON_HEADER_LEN..] == video + chunk
            && d[HEADERS_LEN..] == chunk
  {
  }

  method Fragment(packet: Packet, seqStart: u16, maxDatagram: nat) returns (r: FragmentResult)
    ensures maxDatagram <= HEADERS_LEN <==> r == Err(DatagramTooSmall(maxDatagram))
    ensures maxDatagram > HEADERS_LEN ==>
              var size := maxDatagram - HEADERS_LEN;
              var count := |Chunks(packet.data, size)|;
              if count > 255 then r == Err(TooManyFragments(count))
              else if VIDEO_HEADER_LEN + Min(size, |packet.data|) >= 0x1_0000 then r == Err(PayloadTooLarge)
              else
                && r.Ok? && |r.datagrams| == count
                && forall i :: 0 <= i < count ==>
                     && IsFragment(r.datagrams[i], packet, seqStart, size, i)
                     && |r.datagrams[i]| <= maxDatagram
  {
    if maxDatagram <= HEADERS_LEN {
      return Err(DatagramTooSmall(maxDatagram));
    }
    var size := maxDatagram - HEADERS_LEN;
    var count := if packet.data == [] then 1 else DivCeil(|packet.data|, size);
    ChunkCount(packet.data, size);
    if count > MAX_FRAGMENTS {
      return Err(TooManyFragments(count));
    }
    var result := [];
    for i := 0 to count
      invariant |result| == i
      invariant i > 0 ==> VIDEO_HEADER_LEN + Min(size, |packet.data|) < 0x1_0000
      invariant forall j :: 0 <= j < i ==>
                  IsFragment(result[j], packet, seqStart, size, j) && |result[j]| <= maxDatagram
    {
      hide IsFragment;
      ChunkAt(packet.data, size, i);
      var chunk := packet.data[i * size..Min((i + 1) * size, |packet.data|)];
      if VIDEO_HEADER_LEN + |chunk| >= 0x1_0000 {
        return Err(PayloadTooLarge);
      }
      if i == 0 {
        assert |chunk| == Min(size, |packet.data|);
      }
      var datagram := VideoDatagram(packet, (seqStart + i) % 0x1_0000, i, count, chunk);
      DatagramIsFragment(packet, seqStart, size, i, datagram);
      result := result + [datagram];
    }
    return Ok(result);
  }

  /** Common header, video header, chunk. */
  function VideoDatagram(packet: Packet, sequence: u16, i: nat, count: nat, chunk: seq<byte>): seq<byte>
    requires i < count <= MAX_FRAGMENTS && VIDEO_HEADER_LEN + |chunk| < 0x1_0000
  {
    var ts := packet.captureTs % TIMESTAMPS;
    var isLast := i + 1 == count;
    var common := CommonHeader(Video, count > 1, isLast, sequence, ts, VIDEO_HEADER_LEN + |chunk|);
    var video := VideoHeader(packet.frameId % FRAME_IDS, i, count, packet.codec, packet.frameType,
                             High, 0, isLast, ts);
    EncodeCommon(common) + EncodeVideo(video).value + chunk
  }

  lemma DatagramIsFragment(packet: Packet, seqStart: u16, size: nat, i: nat, d: seq<byte>)
    requires size > 0 && i < |Chunks(packet.data, size)| <= MAX_FRAGMENTS
    requires VIDEO_HEADER_LEN + |Chunks(packet.data, size)[i]| < 0x1_0000
    requires d == VideoDatagram(packet, (seqStart + i) % 0x1_0000, i, |Chunks(packet.data, size)|,
                                Chunks(packet.data, size)[i])
    ensures IsFragment(d, packet, seqStart, size, i)
    ensures |d| == HEADERS_LEN + |Chunks(packet.data, size)[i]|
  {
    hide DecodeCommon, DecodeVideo, EncodeCommon, EncodeVideo;
    var chunk, count := Chunks(packet.data, size)[i], |Chunks(packet.data, size)|;
    var ts := packet.captureTs % TIMESTAMPS;
    var common := CommonHeader(Video, count > 1, i + 1 == count, (seqStart + i) % 0x1_0000, ts,
                               VIDEO_HEADER_LEN + |chunk|);
    var video := VideoHeader(packet.frameId % FRAME_IDS, i, count, packet.codec, packet.frameType,
                             High, 0, i + 1 == count, ts);
    FragmentDecodes(common, video, chunk, d);
  }

  /** The fragment limit is reached exactly when the data is longer than 255 full chunks. */
  lemma {:induction false} TooManyChunks(data: seq<byte>, size: nat, limit: nat)
    requires size > 0 && limit > 0
    ensures |Chunks(data, size)| > limit <==> |data| > limit * size
    decreases limit
  {
    if limit > 1 && |data| > size {
      TooManyChunks(data[size..], size, limit - 1);
      assert (limit - 1) * size == limit * size - size;
    } else if |data| <= size {
      assert limit * size >= size by { assert limit * size == size + (limit - 1) * size; }
    }
  }

  // ---- Reassembly ----

  datatype FrameBuffer = FrameBuffer(
    slots: seq<Option<seq<byte>>>, totalFrags: u8, received: nat,
    codec: Codec, frameType: FrameType, frameId: u64, captureTs: u64)

  type Buffers = map<nat, FrameBuffer>

  /** One well-formed fragment, as decoded from a datagram of the video channel. */
  datatype Piece = Piece(frameId: u64, index: u8, total: u8, codec: Codec, frameType: FrameType,
                         timestamp: u64, chunk: seq<byte>)

  /** None stands for a datagram that is ignored before it touches any buffer. */
  function Parse(d: seq<byte>): (r: Option<Piece>)
    ensures r.Some? ==> r.value.index < r.value.total && r.value.frameId < FRAME_IDS
  {
    var common := DecodeCommon(d);
    if common.None? || common.value.channel != Video then None
    else
      var video := DecodeVideo(d[COMMON_HEADER_LEN..]);
      if video.None? || video.value.totalFrags == 0 || video.value.fragIndex >= video.value.totalFrags then None
      else
        VideoCanonical(d[COMMON_HEADER_LEN..]);
        var v := video.value;
        Some(Piece(v.frameId, v.fragIndex, v.totalFrags, v.codec, v.frameType,
                   common.value.timestamp, d[HEADERS_LEN..]))
  }

  lemma {:induction false} LowestExists(keys: set<nat>) returns (k: nat)
    requires keys != {}
    ensures k in keys && forall j :: j in keys ==> k <= j
    decreases keys
  {
    k :| k in keys;
    var rest := keys - {k};
    assert keys == rest + {k};
    if rest != {} {
      var low := LowestExists(rest);
      k := if low < k then low else k;
    }
  }

  function Lowest(keys: set<nat>): (k: nat)
    requires keys != {}
    ensures k in keys && forall j :: j in keys ==> k <= j
  {
    assert exists k :: k in keys && forall j :: j in keys ==> k <= j by {
      var k := LowestExists(keys);
    }
    var k :| k in keys && forall j :: j in keys ==> k <= j;
    k
  }

  function NoSlots(n: nat): (slots: seq<Option<seq<byte>>>)
    ensures |slots| == n && forall i :: 0 <= i < n ==> slots[i] == None
  {
    seq(n, _ => None)
  }

  function Opened(p: Piece): FrameBuffer {
    FrameBuffer(NoSlots(p.total), p.total, 0, p.codec, p.frameType, p.frameId, p.timestamp)
  }

  /** The frames kept while a new key arrives: a full buffer gives up its lowest key. */
  function AfterEviction(buffers: Buffers, key: nat): Buffers {
    if key !in buffers && |buffers| >= MAX_BUFFERED_FRAMES
    then buffers - {Lowest(buffers.Keys)}
    else buffers
  }

  function Assemble(slots: seq<Option<seq<byte>>>): seq<byte> {
    if slots == [] then []
    else (if slots[0].Some? then slots[0].value else []) + Assemble(slots[1..])
  }

  function Filled(slots: seq<Option<seq<byte>>>): nat {
    if slots == [] then 0 else (if slots[0].Some? then 1 else 0) + Filled(slots[1..])
  }

  function Completed(b: FrameBuffer): Packet {
    Packet(Assemble(b.slots), b.codec, b.frameId, b.captureTs, b.frameType)
  }

  /** The effect of one piece on the buffers, and the packet it completes if any. */
  function Place(buffers: Buffers, p: Piece): (Buffers, Option<Packet>) {
    var kept := AfterEviction(buffers, p.frameId);
    var b := if p.frameId in kept then kept[p.frameId] else Opened(p);
    if p.total != b.totalFrags || p.index >= |b.slots| || b.slots[p.index].Some? then
      (kept[p.frameId := b], None)
    else
      var b' := b.(slots := b.slots[p.index := Some(p.chunk)], received := b.received + 1);
      if b'.received == b'.totalFrags then (kept - {p.frameId}, Some(Completed(b')))
      else (kept[p.frameId := b'], None)
  }

  function Deliver(buffers: Buffers, d: seq<byte>): (Buffers, Option<Packet>) {
    match Parse(d)
    case None => (buffers, None)
    case Some(p) => Place(buffers, p)
  }

  /** A buffer is shaped right and never complete: at least one slot filled, at least one missing. */
  ghost predicate Structured(buffers: Buffers) {
    && |buffers| <= 32
    && forall k :: k in buffers ==> Partial(buffers[k])
  }

  ghost predicate Partial(b: FrameBuffer) {
    && |b.slots| == b.totalFrags
    && b.received == Filled(b.slots)
    && 0 < b.received < b.totalFrags
  }

  method Concatenate(slots: seq<Option<seq<byte>>>) returns (data: seq<byte>)
    ensures data == Assemble(slots)
  {
    data := [];
    for i := 0 to |slots|
      invariant data == Assemble(slots[..i])
    {
      AssembleAppend(slots[..i], slots[i]);
      assert slots[..i + 1] == slots[..i] + [slots[i]];
      if slots[i].Some? {
        data := data + slots[i].value;
      }
    }
    assert slots[..|slots|] == slots;
  }

  class Reassembler {
    var buffers: Buffers

    constructor ()
      ensures buffers == map[]
    {
      buffers := map[];
    }

    method Ingest(datagram: seq<byte>) returns (out: Option<Packet>)
      requires Structured(buffers)
      modifies this
      ensures (buffers, out) == Deliver(old(buffers), datagram)
      ensures Structured(buffers)
    {
      hide DecodeCommon, DecodeVideo, Place;
      DeliverKeepsStructure(buffers, datagram);
      var common := DecodeCommon(datagram);
      if common.None? || common.value.channel != Video {
        return None;
      }
      var video := DecodeVideo(datagram[COMMON_HEADER_LEN..]);
      if video.None? || video.value.totalFrags == 0 || video.value.fragIndex >= video.value.totalFrags {
        return None;
      }
      var v := video.value;
      out := Accept(v, common.value.timestamp, datagram[HEADERS_LEN..]);
    }

    /** The second half of `Ingest`: find or open the frame's buffer, fill the slot, emit if complete. */
    method Accept(v: VideoHeader, timestamp: u64, chunk: seq<byte>) returns (out: Option<Packet>)
      requires Structured(buffers)
      requires v.fragIndex < v.totalFrags && v.frameId < FRAME_IDS
      modifies this
      ensures (buffers, out) == Place(old(buffers), Piece(v.frameId, v.fragIndex, v.totalFrags, v.codec,
                                                          v.frameType, timestamp, chunk))
    {
      hide AfterEviction, Filled, Assemble, Structured, Partial;
      var key := v.frameId % FRAME_IDS;
      assert key == v.frameId;
      KeptShape(buffers, key);
      Evict(key);
      var b := if key in buffers then buffers[key]
               else FrameBuffer(NoSlots(v.totalFrags), v.totalFrags, 0, v.codec, v.frameType, v.frameId, timestamp);
      if v.totalFrags != b.totalFrags || v.fragIndex >= b.totalFrags || b.slots[v.fragIndex].Some? {
        buffers := buffers[key := b];
        return None;
      }
      b := b.(slots := b.slots[v.fragIndex := Some(chunk)], received := b.received + 1);
      if b.received == b.totalFrags {
        buffers := buffers - {key};
        var data := Concatenate(b.slots);
        out := Some(Packet(data, b.codec, b.frameId, b.captureTs, b.frameType));
      } else {
        buffers := buffers[key := b];
        out := None;
      }
    }

    /** Make room for a key not seen before by dropping the lowest buffered one. */
    method Evict(key: nat)
      modifies this
      ensures buffers == AfterEviction(old(buffers), key)
    {
      if key !in buffers && |buffers| >= MAX_BUFFERED_FRAMES {
        buffers := buffers - {Lowest(buffers.Keys)};
      }
    }
  }

  lemma {:induction false} AssembleAppend(slots: seq<Option<seq<byte>>>, s: Option<seq<byte>>)
    ensures Assemble(slots + [s]) == Assemble(slots) + (if s.Some? then s.value else [])
  {
    if slots != [] {
      assert (slots + [s])[1..] == slots[1..] + [s];
      AssembleAppend(slots[1..], s);
    } else {
      assert ([s])[1..] == [];
    }
  }

  lemma {:induction false} FilledUpdate(slots: seq<Option<seq<byte>>>, i: nat, chunk: seq<byte>)
    requires i < |slots| && slots[i].None?
    ensures Filled(slots[i := Some(chunk)]) == Filled(slots) + 1
  {
    var slots' := slots[i := Some(chunk)];
    if i == 0 {
      assert slots'[1..] == slots[1..];
    } else {
      assert slots'[1..] == slots[1..][i - 1 := Some(chunk)];
      FilledUpdate(slots[1..], i - 1, chunk);
    }
  }

  lemma {:induction false} FilledBounds(slots: seq<Option<seq<byte>>>)
    ensures Filled(slots) <= |slots|
    ensures Filled(slots) == |slots| <==> forall i :: 0 <= i < |slots| ==> slots[i].Some?
    ensures Filled(slots) == 0 <==> forall i :: 0 <= i < |slots| ==> slots[i].None?
  {
    if slots != [] {
      FilledBounds(slots[1..]);
      assert forall i :: 1 <= i < |slots| ==> slots[i] == slots[1..][i - 1];
      assert forall i :: 0 <= i < |slots[1..]| ==> slots[1..][i] == slots[i + 1];
    }
  }

  lemma EvictionMakesRoom(buffers: Buffers, key: nat)
    requires |buffers| <= MAX_BUFFERED_FRAMES
    ensures var kept := AfterEviction(buffers, key);
            && |kept.Keys + {key}| <= MAX_BUFFERED_FRAMES
            && kept.Keys <= buffers.Keys
            && (forall k :: k in kept ==> kept[k] == buffers[k])
  {
    var kept := AfterEviction(buffers, key);
    assert |buffers| == |buffers.Keys|;
    if key !in buffers && |buffers| >= MAX_BUFFERED_FRAMES {
      assert kept.Keys == buffers.Keys - {Lowest(buffers.Keys)};
    } else if key in buffers {
      assert kept.Keys + {key} == kept.Keys;
    }
  }

  /** A frame that survives eviction still has one slot per announced fragment. */
  lemma KeptShape(buffers: Buffers, key: nat)
    requires Structured(buffers)
    ensures var kept := AfterEviction(buffers, key);
            key in kept ==> |kept[key].slots| == kept[key].totalFrags
  {
    hide AfterEviction, Filled;
    EvictionMakesRoom(buffers, key);
  }

  /** Whatever bytes arrive, hostile or not, the buffers stay bounded and every buffer stays partial. */
  lemma DeliverKeepsStructure(buffers: Buffers, d: seq<byte>)
    requires Structured(buffers)
    ensures Structured(Deliver(buffers, d).0)
  {
    if Parse(d).Some? {
      PlaceKeepsStructure(buffers, Parse(d).value);
    }
  }

  lemma PlaceKeepsStructure(buffers: Buffers, p: Piece)
    requires Structured(buffers) && p.index < p.total
    ensures Structured(Place(buffers, p).0)
  {
    hide AfterEviction, Filled, Assemble;
    var kept := AfterEviction(buffers, p.frameId);
    EvictionMakesRoom(buffers, p.frameId);
    var b := if p.frameId in kept then kept[p.frameId] else Opened(p);
    FilledBounds(b.slots);
    var result := Place(buffers, p).0;
    CardinalityMonotone(result.Keys, kept.Keys + {p.frameId});
    if p.total == b.totalFrags && b.slots[p.index].None? {
      FilledUpdate(b.slots, p.index, p.chunk);
      FilledBounds(b.slots[p.index := Some(p.chunk)]);
    }
  }

  lemma {:induction false} CardinalityMonotone<T>(a: set<T>, b: set<T>)
    requires a <= b
    ensures |a| <= |b|
  {
    assert b == a + (b - a);
  }

  // ---- Pieces that are not from a sender ----

  /** A piece whose total is not that of its frame's first piece, or whose slot is filled, changes nothing. */
  lemma ContradictionIsIgnored(buffers: Buffers, p: Piece)
    requires Structured(buffers) && p.frameId in buffers
    requires p.total != buffers[p.frameId].totalFrags
             || (p.index < |buffers[p.frameId].slots| && buffers[p.frameId].slots[p.index].Some?)
    ensures Place(buffers, p) == (buffers, None)
  {
    assert buffers[p.frameId := buffers[p.frameId]] == buffers;
  }

  /** The first piece of a frame sets what every later one and the packet must agree with. */
  lemma FirstPieceDecides(buffers: Buffers, p: Piece)
    requires p.frameId !in buffers && p.index < p.total
    ensures var (after, out) := Place(buffers, p);
            if p.total == 1 then
              p.frameId !in after
              && out == Some(Packet(p.chunk, p.codec, p.frameId, p.timestamp, p.frameType))
            else
              && out == None && p.frameId in after
              && var b := after[p.frameId];
                 && b.totalFrags == p.total == |b.slots| && b.received == 1
                 && b.codec == p.codec && b.frameType == p.frameType
                 && b.frameId == p.frameId && b.captureTs == p.timestamp
                 && forall i :: 0 <= i < |b.slots| ==> b.slots[i] == if i == p.index then Some(p.chunk) else None
  {
    if p.total == 1 {
      assert [Some(p.chunk)][1..] == [];
      assert Opened(p).slots[p.index := Some(p.chunk)] == [Some(p.chunk)];
      assert Assemble([Some(p.chunk)]) == p.chunk + [] == p.chunk;
    }
  }
}
