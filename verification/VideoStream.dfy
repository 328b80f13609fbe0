/** The host's video loop: fragments, sequence numbers and frame ids over a whole stream. */
module VideoStream {
  import opened Arith
  import opened Wire
  import opened Chunking
  import opened Packetize

  /** One encoded access unit. */
  datatype Frame = Frame(frameType: FrameType, payload: seq<byte>)

  function Clamp(n: nat, low: nat, high: nat): nat { if n < low then low else if n > high then high else n }

  function ChunkSize(maxFragmentBytes: nat): (size: nat)
    ensures 0 < size < 0x1_0000
  {
    Clamp(maxFragmentBytes, 1, 0xFFFF)
  }

  /** A frame that needs more than 255 fragments cannot be sent. */
  predicate Sendable(frame: Frame, size: nat)
    requires size > 0
  {
    |Chunks(frame.payload, size)| <= MAX_FRAGMENTS
  }

  function Timestamp(index: nat, perUs: u64): u64 { index * perUs % 0x1_0000_0000_0000_0000 }

  /** `d` is fragment `i` of the frame, sent as frame number `index` of the stream. */
  ghost predicate Carries(d: seq<byte>, sequence: nat, index: nat, perUs: u64, frame: Frame, size: nat, i: nat)
    requires 0 < size < 0x1_0000
  {
    var total := |Chunks(frame.payload, size)|;
    var ts := Timestamp(index, perUs) % TIMESTAMPS;
    && i < total <= MAX_FRAGMENTS
    && |d| >= HEADERS_LEN
    && d[HEADERS_LEN..] == Chunks(frame.payload, size)[i]
    && |d| < HEADERS_LEN + 0x1_0000
    && DecodeCommon(d) == Some(CommonHeader(Video, total > 1, total > 1 && i + 1 == total,
                                            sequence % 0x1_0000, ts, |d| - HEADERS_LEN))
    && DecodeVideo(d[COMMON_HEADER_LEN..]) == Some(VideoHeader(
         index % FRAME_IDS, i, total, H264, frame.frameType, High, 0, i + 1 == total, ts))
  }

  // ---- In terms of the configured limit ----

  /** At most that many payload bytes after the 21 header bytes, and exactly that many if the marker is not set. */
  ghost predicate WithinLimit(d: seq<byte>, maxFragmentBytes: nat) {
    var limit := Max(1, Min(maxFragmentBytes, 65535));
    && 21 <= |d| <= 21 + limit
    && DecodeVideo(d[9..]).Some?
    && (!DecodeVideo(d[9..]).value.marker ==> |d| == 21 + limit)
  }

  ghost predicate AllWithinLimit(sent: seq<seq<byte>>, maxFragmentBytes: nat) {
    forall p :: 0 <= p < |sent| ==> WithinLimit(sent[p], maxFragmentBytes)
  }

  lemma CarriesWithinLimit(
      d: seq<byte>, sequence: nat, index: nat, perUs: u64, frame: Frame, maxFragmentBytes: nat, i: nat)
    requires Carries(d, sequence, index, perUs, frame, ChunkSize(maxFragmentBytes), i)
    ensures WithinLimit(d, maxFragmentBytes)
  {
    hide DecodeVideo, DecodeCommon, Timestamp;
    ChunkLengths(frame.payload, ChunkSize(maxFragmentBytes), i);
  }

  /** A frame can be sent exactly if its payload is at most 255 times the limit. */
  lemma SendableExactly(frame: Frame, maxFragmentBytes: nat)
    ensures Sendable(frame, ChunkSize(maxFragmentBytes)) <==>
            |frame.payload| <= 255 * Max(1, Min(maxFragmentBytes, 65535))
  {
    TooManyChunks(frame.payload, ChunkSize(maxFragmentBytes), 255);
  }

  /** The first frame is stamped zero, and each next one `perUs` later, modulo 2^64. */
  lemma TimestampSteps(index: nat, perUs: u64)
    ensures Timestamp(0, perUs) == 0
    ensures Timestamp(index + 1, perUs) == (Timestamp(index, perUs) + perUs) % 18446744073709551616
  {
    assert (index + 1) * perUs == index * perUs + perUs;
  }

  /** What is on the wire of fragment `i` of frame `index`, by numbers. */
  lemma FragmentFields(d: seq<byte>, sequence: nat, index: nat, perUs: u64, frame: Frame, size: nat, i: nat)
    requires 0 < size < 0x1_0000 && Carries(d, sequence, index, perUs, frame, size, i)
    ensures DecodeCommon(d).Some? && DecodeVideo(d[9..]).Some?
    ensures var common, video := DecodeCommon(d).value, DecodeVideo(d[9..]).value;
            && common.sequence == sequence % 65536 && common.payloadLen == |d| - 21
            && common.timestamp == video.encodeTs == index * perUs % 4294967296
            && video.frameId == index % 16777216 && video.fragIndex == i
            && video.totalFrags <= 255 && (video.marker <==> i + 1 == video.totalFrags)
            && (common.lastFragment <==> video.marker && video.totalFrags > 1)
  {
    hide DecodeVideo, DecodeCommon;
    ModuloModulo(index * perUs);
  }

  lemma ModuloModulo(n: nat)
    ensures n % 18446744073709551616 % 4294967296 == n % 4294967296
  {
    var q, m := n / 18446744073709551616, n % 18446744073709551616;
    assert n == m + 4294967296 * (4294967296 * q);
    Multiples(m, 4294967296 * q);
  }

  lemma Multiples(m: nat, q: nat)
    ensures (m + 4294967296 * q) % 4294967296 == m % 4294967296
  {
  }

  // ---- Building the fragments of one frame ----

  function OneFragment(sequence: u16, frameId: nat, ts: u64, frameType: FrameType, chunk: seq<byte>,
                       index: nat, total: nat): seq<byte>
    requires index < total <= MAX_FRAGMENTS && |chunk| < 0x1_0000 && frameId < FRAME_IDS
  {
    var isMulti := total > 1;
    var isLast := total - 1 == index;
    EncodeCommon(CommonHeader(Video, isMulti, isMulti && isLast, sequence, ts, |chunk|))
    + EncodeVideo(VideoHeader(frameId, index, total, H264, frameType, High, 0, isLast, ts)).value
    + chunk
  }

  lemma OneFragmentDecodes(sequence: u16, frameId: nat, ts: u64, frameType: FrameType, chunk: seq<byte>,
                           index: nat, total: nat)
    requires index < total <= MAX_FRAGMENTS && |chunk| < 0x1_0000 && frameId < FRAME_IDS
    ensures var d := OneFragment(sequence, frameId, ts, frameType, chunk, index, total);
            && |d| == HEADERS_LEN + |chunk| && d[HEADERS_LEN..] == chunk
            && DecodeCommon(d) == Some(CommonHeader(Video, total > 1, total > 1 && index + 1 == total,
                                                    sequence, ts % TIMESTAMPS, |chunk|))
            && DecodeVideo(d[COMMON_HEADER_LEN..]) == Some(VideoHeader(
                 frameId, index, total, H264, frameType, High, 0, index + 1 == total, ts % TIMESTAMPS))
  {
    hide DecodeCommon, DecodeVideo;
    var common := CommonHeader(Video, total > 1, total > 1 && total - 1 == index, sequence, ts, |chunk|);
    var video := VideoHeader(frameId, index, total, H264, frameType, High, 0, total - 1 == index, ts);
    var c, v := EncodeCommon(common), EncodeVideo(video).value;
    SplitHeaders(c, v, chunk);
    CommonRoundTrip(common, v + chunk);
    VideoRoundTrip(video, chunk);
  }

  lemma FragmentCarries(sequence: nat, index: nat, perUs: u64, frame: Frame, size: nat, i: nat)
    requires 0 < size < 0x1_0000 && Sendable(frame, size) && i < |Chunks(frame.payload, size)|
    ensures |Chunks(frame.payload, size)[i]| < 0x1_0000
    ensures Carries(OneFragment(sequence % 0x1_0000, index % FRAME_IDS, Timestamp(index, perUs), frame.frameType,
                                Chunks(frame.payload, size)[i], i, |Chunks(frame.payload, size)|),
                    sequence, index, perUs, frame, size, i)
  {
    hide OneFragment, DecodeCommon, DecodeVideo, Timestamp;
    ChunkAt(frame.payload, size, i);
    OneFragmentDecodes(sequence % 0x1_0000, index % FRAME_IDS, Timestamp(index, perUs), frame.frameType,
                       Chunks(frame.payload, size)[i], i, |Chunks(frame.payload, size)|);
  }

  lemma FragmentTotal(payload: seq<byte>, size: nat)
    requires size > 0
    ensures Max(DivCeil(|payload|, size), 1) == |Chunks(payload, size)|
    ensures payload == [] ==> Chunks(payload, size) == [[]]
  {
    ChunkCount(payload, size);
    if payload == [] {
      QuotientUnique(size, 0, size - 1);
    } else {
      DivCeilPositive(|payload|, size);
    }
  }

  /** None stands for the error of a frame that needs more than 255 fragments. */
  method BuildFragments(sequenceStart: u16, index: nat, perUs: u64, frame: Frame, maxFragmentBytes: nat)
    returns (r: Option<seq<seq<byte>>>)
    ensures var size := ChunkSize(maxFragmentBytes);
            && (r.Some? <==> Sendable(frame, size))
            && (r.Some? ==>
                  && |r.value| == |Chunks(frame.payload, size)|
                  && forall i :: 0 <= i < |r.value| ==>
                       Carries(r.value[i], sequenceStart + i, index, perUs, frame, size, i))
    ensures r.Some? <==> |frame.payload| <= 255 * Max(1, Min(maxFragmentBytes, 65535))
    ensures r.Some? ==> AllWithinLimit(r.value, maxFragmentBytes)
  {
    hide Carries, OneFragment, Timestamp, DivCeil, WithinLimit;
    SendableExactly(frame, maxFragmentBytes);
    var frameId, ts := index % FRAME_IDS, Timestamp(index, perUs);
    var size := ChunkSize(maxFragmentBytes);
    var total := Max(DivCeil(|frame.payload|, size), 1);
    FragmentTotal(frame.payload, size);
    if total > MAX_FRAGMENTS {
      return None;
    }
    if frame.payload == [] {
      FragmentCarries(sequenceStart, index, perUs, frame, size, 0);
      CarriesWithinLimit(OneFragment(sequenceStart, frameId, ts, frame.frameType, [], 0, total),
                         sequenceStart, index, perUs, frame, maxFragmentBytes, 0);
      return Some([OneFragment(sequenceStart, frameId, ts, frame.frameType, [], 0, total)]);
    }
    var out := [];
    for i := 0 to total
      invariant |out| == i
      invariant forall j :: 0 <= j < i ==> Carries(out[j], sequenceStart + j, index, perUs, frame, size, j)
    {
      ChunkAt(frame.payload, size, i);
      FragmentCarries(sequenceStart + i, index, perUs, frame, size, i);
      var chunk := frame.payload[i * size..Min((i + 1) * size, |frame.payload|)];
      out := out + [OneFragment((sequenceStart + i) % 0x1_0000, frameId, ts, frame.frameType, chunk, i, total)];
    }
    forall j | 0 <= j < |out| ensures WithinLimit(out[j], maxFragmentBytes) {
      CarriesWithinLimit(out[j], sequenceStart + j, index, perUs, frame, maxFragmentBytes, j);
    }
    return Some(out);
  }

  // ---- A whole stream ----

  /** How many fragments the first `k` frames took. */
  function Offset(frames: seq<Frame>, size: nat, k: nat): nat
    requires size > 0 && k <= |frames|
  {
    if k == 0 then 0 else Offset(frames, size, k - 1) + |Chunks(frames[k - 1].payload, size)|
  }

  /**
   * The datagrams sent so far: every frame's fragments in order, numbered consecutively across frames,
   * then the first few fragments of a frame cut short when the peer went away.
   */
  ghost predicate StreamOf(sent: seq<seq<byte>>, frames: seq<Frame>, cut: Option<Frame>, size: nat, perUs: u64)
    requires 0 < size < 0x1_0000
  {
    var n := Offset(frames, size, |frames|);
    && n <= |sent|
    && (forall k :: 0 <= k < |frames| ==> WholeFrameAt(sent, Offset(frames, size, k), k, perUs, frames[k], size))
    && (cut.None? ==> |sent| == n)
    && (cut.Some? ==>
          && |sent| < n + |Chunks(cut.value.payload, size)|
          && FragmentsAt(sent, n, |frames|, perUs, cut.value, size, |sent| - n))
  }

  ghost predicate WholeFrameAt(sent: seq<seq<byte>>, base: nat, k: nat, perUs: u64, frame: Frame, size: nat)
    requires 0 < size < 0x1_0000
  {
    FragmentsAt(sent, base, k, perUs, frame, size, |Chunks(frame.payload, size)|)
  }

  /**
   * From place `base` on, the stream holds the first `count` fragments of frame number `k`; the sequence
   * of each is its place in the stream.
   */
  ghost predicate FragmentsAt(sent: seq<seq<byte>>, base: nat, k: nat, perUs: u64, frame: Frame, size: nat, count: nat)
    requires 0 < size < 0x1_0000
  {
    base + count <= |sent|
    && forall p :: base <= p < base + count ==> Carries(sent[p], p, k, perUs, frame, size, p - base)
  }

  /** The transport. A send fails when the peer has closed the channel. */
  class Channel {
    var sent: seq<seq<byte>>

    method Send(d: seq<byte>) returns (ok: bool)
      modifies this
      ensures sent == if ok then old(sent) + [d] else old(sent)
    {
      ok := *;
      if ok {
        sent := sent + [d];
      }
    }
  }

  /** The encoder: a script of what it will produce, ending in an error; `armed` asks for a keyframe. */
  class FrameSource {
    var script: seq<Frame>
    var armed: bool

    method NextFrame() returns (frame: Option<Frame>)
      modifies this`script
      ensures old(script) == [] ==> frame == None && script == []
      ensures old(script) != [] ==> frame == Some(old(script)[0]) && script == old(script)[1..]
    {
      if script == [] {
        return None;
      }
      frame := Some(script[0]);
      script := script[1..];
    }

    method RequestKeyframe()
      modifies this`armed
      ensures armed
    {
      armed := true;
    }
  }

  datatype FrameStep = Sent(fragments: nat) | Skipped | PeerClosed | Failed

  method SendOneFrame(channel: Channel, source: FrameSource, index: nat, perUs: u64, sequence: u16,
                      maxFragmentBytes: nat, ghost frames: seq<Frame>)
    returns (step: FrameStep, ghost frame: Frame)
    requires StreamOf(channel.sent, frames, None, ChunkSize(maxFragmentBytes), perUs)
    requires index == |frames| && sequence == |channel.sent| % 0x1_0000
    modifies channel, source
    ensures var size := ChunkSize(maxFragmentBytes);
            && (step == Failed <==> old(source.script) == [])
            && (step == Failed ==> source.script == [])
            && (old(source.script) != [] ==>
                  && frame == old(source.script)[0] && source.script == old(source.script)[1..]
                  && (step == Skipped <==> !Sendable(frame, size))
                  && (step == Skipped <==> |frame.payload| > 255 * Max(1, Min(maxFragmentBytes, 65535))))
            && (AllWithinLimit(old(channel.sent), maxFragmentBytes) ==>
                  AllWithinLimit(channel.sent, maxFragmentBytes))
            && (step == Skipped ==> source.armed)
            && (step != Skipped ==> source.armed == old(source.armed))
            && (step == Failed || step == Skipped ==> channel.sent == old(channel.sent))
            && (step.Sent? ==>
                  && StreamOf(channel.sent, frames + [frame], None, size, perUs)
                  && |channel.sent| == |old(channel.sent)| + step.fragments)
            && (step == PeerClosed ==> StreamOf(channel.sent, frames, Some(frame), size, perUs))
  {
    hide Carries, Sendable, StreamOf, Chunks, WithinLimit;
    ghost var size := ChunkSize(maxFragmentBytes);
    var produced := source.NextFrame();
    frame := if produced.Some? then produced.value else Frame(Idr, []);
    if produced.None? {
      return Failed, frame;
    }
    var fragments := BuildFragments(sequence, index, perUs, produced.value, maxFragmentBytes);
    if fragments.None? {
      source.RequestKeyframe();
      return Skipped, frame;
    }
    ghost var before := channel.sent;
    ghost var chunks := Chunks(frame.payload, size);
    for i := 0 to |fragments.value|
      invariant |channel.sent| == |before| + i && before <= channel.sent
      invariant forall j :: 0 <= j < i ==> channel.sent[|before| + j] == fragments.value[j]
      invariant AllWithinLimit(before, maxFragmentBytes) ==> AllWithinLimit(channel.sent, maxFragmentBytes)
      modifies channel
    {
      var ok := channel.Send(fragments.value[i]);
      if !ok {
        StreamCut(before, channel.sent, frames, frame, size, perUs, sequence, fragments.value);
        return PeerClosed, frame;
      }
    }
    StreamGrows(before, channel.sent, frames, frame, size, perUs, sequence, fragments.value);
    return Sent(|fragments.value|), frame;
  }

  /** Fragments numbered from the wire sequence are numbered from their place in the stream. */
  lemma SameSequence(d: seq<byte>, p: nat, sequence: u16, i: nat, k: nat, perUs: u64, frame: Frame, size: nat, j: nat)
    requires 0 < size < 0x1_0000 && sequence == p % 0x1_0000
    requires Carries(d, sequence + i, k, perUs, frame, size, j)
    ensures Carries(d, p + i, k, perUs, frame, size, j)
  {
    hide DecodeCommon, DecodeVideo, Timestamp;
    assert (sequence + i) % 0x1_0000 == (p + i) % 0x1_0000;
  }

  /** The first `|sent| - |before|` fragments of a frame went out after `before`. */
  ghost predicate Sending(before: seq<seq<byte>>, sent: seq<seq<byte>>, k: nat, frame: Frame, size: nat, perUs: u64,
                          sequence: u16, fragments: seq<seq<byte>>)
    requires 0 < size < 0x1_0000
  {
    && before <= sent && sequence == |before| % 0x1_0000
    && |sent| - |before| <= |fragments| == |Chunks(frame.payload, size)|
    && (forall i :: 0 <= i < |fragments| ==> Carries(fragments[i], sequence + i, k, perUs, frame, size, i))
    && (forall j :: 0 <= j < |sent| - |before| ==> sent[|before| + j] == fragments[j])
  }

  lemma SentFragments(before: seq<seq<byte>>, sent: seq<seq<byte>>, k: nat, frame: Frame, size: nat, perUs: u64,
                      sequence: u16, fragments: seq<seq<byte>>)
    requires 0 < size < 0x1_0000 && Sending(before, sent, k, frame, size, perUs, sequence, fragments)
    ensures FragmentsAt(sent, |before|, k, perUs, frame, size, |sent| - |before|)
    ensures |sent| - |before| == |fragments| ==> WholeFrameAt(sent, |before|, k, perUs, frame, size)
  {
    hide Carries;
    forall p | |before| <= p < |sent| ensures Carries(sent[p], p, k, perUs, frame, size, p - |before|) {
      var i := p - |before|;
      assert sent[|before| + i] == fragments[i];
      SameSequence(fragments[i], |before|, sequence, i, k, perUs, frame, size, i);
    }
  }

  lemma {:induction false} OffsetOfPrefix(frames: seq<Frame>, more: seq<Frame>, size: nat, k: nat)
    requires size > 0 && k <= |frames|
    ensures Offset(frames + more, size, k) == Offset(frames, size, k)
    decreases k
  {
    if k > 0 {
      OffsetOfPrefix(frames, more, size, k - 1);
    }
  }

  lemma OffsetAppend(frames: seq<Frame>, frame: Frame, size: nat)
    requires size > 0
    ensures Offset(frames + [frame], size, |frames| + 1)
            == Offset(frames, size, |frames|) + |Chunks(frame.payload, size)|
  {
    OffsetOfPrefix(frames, [frame], size, |frames|);
  }

  lemma EarlierFrames(before: seq<seq<byte>>, sent: seq<seq<byte>>, frames: seq<Frame>, size: nat, perUs: u64, k: nat)
    requires 0 < size < 0x1_0000 && before <= sent && StreamOf(before, frames, None, size, perUs) && k < |frames|
    ensures WholeFrameAt(sent, Offset(frames, size, k), k, perUs, frames[k], size)
  {
    hide Carries;
    assert WholeFrameAt(before, Offset(frames, size, k), k, perUs, frames[k], size);
  }

  lemma StreamCut(before: seq<seq<byte>>, sent: seq<seq<byte>>, frames: seq<Frame>, frame: Frame, size: nat,
                  perUs: u64, sequence: u16, fragments: seq<seq<byte>>)
    requires 0 < size < 0x1_0000 && StreamOf(before, frames, None, size, perUs)
    requires Sending(before, sent, |frames|, frame, size, perUs, sequence, fragments)
    requires |sent| - |before| < |fragments|
    ensures StreamOf(sent, frames, Some(frame), size, perUs)
  {
    hide FragmentsAt, WholeFrameAt, Offset;
    forall k | 0 <= k < |frames| ensures WholeFrameAt(sent, Offset(frames, size, k), k, perUs, frames[k], size) {
      EarlierFrames(before, sent, frames, size, perUs, k);
    }
    SentFragments(before, sent, |frames|, frame, size, perUs, sequence, fragments);
  }

  lemma StreamGrows(before: seq<seq<byte>>, sent: seq<seq<byte>>, frames: seq<Frame>, frame: Frame, size: nat,
                    perUs: u64, sequence: u16, fragments: seq<seq<byte>>)
    requires 0 < size < 0x1_0000 && StreamOf(before, frames, None, size, perUs)
    requires Sending(before, sent, |frames|, frame, size, perUs, sequence, fragments)
    requires |sent| - |before| == |fragments|
    ensures StreamOf(sent, frames + [frame], None, size, perUs)
  {
    hide FragmentsAt, WholeFrameAt, Sending, Offset;
    var all := frames + [frame];
    SendingShape(before, sent, |frames|, frame, size, perUs, sequence, fragments);
    OffsetAppend(frames, frame, size);
    forall k | 0 <= k < |all| ensures WholeFrameAt(sent, Offset(all, size, k), k, perUs, all[k], size) {
      OffsetOfPrefix(frames, [frame], size, k);
      if k < |frames| {
        EarlierFrames(before, sent, frames, size, perUs, k);
      } else {
        SentFragments(before, sent, k, frame, size, perUs, sequence, fragments);
      }
    }
  }

  lemma SendingShape(before: seq<seq<byte>>, sent: seq<seq<byte>>, k: nat, frame: Frame, size: nat, perUs: u64,
                     sequence: u16, fragments: seq<seq<byte>>)
    requires 0 < size < 0x1_0000 && Sending(before, sent, k, frame, size, perUs, sequence, fragments)
    ensures before <= sent && |fragments| == |Chunks(frame.payload, size)|
  {
  }

  lemma EmptyStream(size: nat, perUs: u64)
    requires 0 < size < 0x1_0000
    ensures StreamOf([], [], None, size, perUs)
  {
  }

  /** The frames of a script that can be sent, in order. */
  function SendableOf(script: seq<Frame>, size: nat): seq<Frame>
    requires size > 0
  {
    if script == [] then []
    else (if Sendable(script[0], size) then [script[0]] else []) + SendableOf(script[1..], size)
  }

  datatype Outcome = Complete | Closed | SourceFailed

  /**
   * The video loop. What reaches the channel is a stream of the sendable frames of the script, in order,
   * with skipped frames using up neither a sequence number nor a frame id.
   */
  method RunVideoSendLoop(channel: Channel, source: FrameSource, framesToSend: nat, perUs: u64,
                          maxFragmentBytes: nat)
    returns (outcome: Outcome, ghost frames: seq<Frame>, ghost cut: Option<Frame>)
    requires channel.sent == []
    modifies channel, source
    ensures var size := ChunkSize(maxFragmentBytes);
            && StreamOf(channel.sent, frames, cut, size, perUs)
            && |frames| <= framesToSend
            && frames + (if cut.Some? then [cut.value] else []) + SendableOf(source.script, size)
               == SendableOf(old(source.script), size)
    ensures AllWithinLimit(channel.sent, maxFragmentBytes)
    ensures forall f :: f in frames ==> |f.payload| <= 255 * Max(1, Min(maxFragmentBytes, 65535))
    ensures outcome == Complete ==> cut == None && |frames| == framesToSend
    ensures outcome == Closed ==> cut.Some?
    ensures outcome == SourceFailed ==> cut == None && source.script == []
  {
    hide Carries, WholeFrameAt, FragmentsAt, Sendable, StreamOf, Chunks, WithinLimit;
    ghost var size := ChunkSize(maxFragmentBytes);
    var sent, sequence := 0, 0;
    frames, cut := [], None;
    EmptyStream(size, perUs);
    while sent < framesToSend
      invariant cut == None && sent == |frames| <= framesToSend
      invariant sequence == |channel.sent| % 0x1_0000
      invariant StreamOf(channel.sent, frames, None, size, perUs) && AllWithinLimit(channel.sent, maxFragmentBytes)
      invariant forall f :: f in frames ==> |f.payload| <= 255 * Max(1, Min(maxFragmentBytes, 65535))
      invariant frames + SendableOf(source.script, size) == SendableOf(old(source.script), size)
      decreases |source.script|
    {
      ghost var script := source.script;
      var step, frame := SendOneFrame(channel, source, sent, perUs, sequence, maxFragmentBytes, frames);
      match step {
        case Sent(n) =>
          ghost var rest := SendableOf(source.script, size);
          assert frames + ([frame] + rest) == (frames + [frame]) + rest;
          sent := sent + 1;
          sequence := (sequence + n) % 0x1_0000;
          frames := frames + [frame];
        case Skipped =>
          assert SendableOf(script, size) == SendableOf(source.script, size);
        case PeerClosed =>
          ghost var rest := SendableOf(source.script, size);
          assert frames + ([frame] + rest) == (frames + [frame]) + rest;
          cut := Some(frame);
          return Closed, frames, cut;
        case Failed =>
          assert frames + [] == frames;
          return SourceFailed, frames, cut;
      }
    }
    assert frames + [] == frames;
    outcome := Complete;
  }
}
