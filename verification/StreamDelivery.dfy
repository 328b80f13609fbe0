/** The host's stream meets the reassembler: what the video loop sends is what the receiver rebuilds. */
module StreamDelivery {
  import opened Wire
  import opened Chunking
  import opened Packetize
  import opened Reassembly
  import opened VideoStream

  /** Frame number `k` of the stream as the host sends it; ids run over after 2^24 frames. */
  function HostPacket(frame: Frame, k: nat, perUs: u64): Packet {
    Packet(frame.payload, H264, k % FRAME_IDS, Timestamp(k, perUs), frame.frameType)
  }

  function HostSent(frame: Frame, k: nat, perUs: u64, size: nat): SentPacket {
    SentPacket(HostPacket(frame, k, perUs), size)
  }

  ghost predicate AllSendable(frames: seq<Frame>, size: nat)
    requires size > 0
  {
    forall k :: 0 <= k < |frames| ==> Sendable(frames[k], size)
  }

  /** What the reassembler makes of a fragment of the host. */
  lemma FragmentParses(d: seq<byte>, p: nat, k: nat, perUs: u64, frame: Frame, size: nat, i: nat)
    requires 0 < size < 0x1_0000 && Carries(d, p, k, perUs, frame, size, i)
    ensures Parse(d).Some? && PieceOf(HostSent(frame, k, perUs, size), Parse(d).value)
    ensures var piece := Parse(d).value;
            piece.frameId == k % FRAME_IDS && piece.index == i && piece.total == |Chunks(frame.payload, size)|
  {
    hide DecodeCommon, DecodeVideo, Timestamp;
  }

  // ---- On a faulty network ----

  /** As long as the ids have not run over, no two frames of the stream share one. */
  function HostCatalogue(frames: seq<Frame>, size: nat, perUs: u64): map<nat, SentPacket>
    requires |frames| <= FRAME_IDS
  {
    map k: nat | k < |frames| :: HostSent(frames[k], k, perUs, size)
  }

  lemma HostCatalogueIsValid(frames: seq<Frame>, size: nat, perUs: u64)
    requires |frames| <= FRAME_IDS && size > 0 && AllSendable(frames, size)
    ensures Catalogue(HostCatalogue(frames, size, perUs))
  {
    hide Timestamp;
    forall k | 0 <= k < |frames| ensures k == k % FRAME_IDS % FRAME_IDS && Sendable(frames[k], size) { SmallId(k); }
  }

  lemma SmallId(k: nat)
    requires k < FRAME_IDS
    ensures k == k % FRAME_IDS % FRAME_IDS
  {
  }

  /** So every guarantee about genuine datagrams on a faulty network holds for the host's stream. */
  lemma HostFragmentIsGenuine(frames: seq<Frame>, size: nat, perUs: u64, d: seq<byte>, p: nat, k: nat, i: nat)
    requires 0 < size < 0x1_0000 && k < |frames| <= FRAME_IDS && AllSendable(frames, size)
    requires Carries(d, p, k, perUs, frames[k], size, i)
    ensures Catalogue(HostCatalogue(frames, size, perUs)) && Genuine(HostCatalogue(frames, size, perUs), d)
  {
    hide Carries, PieceOf, HostSent;
    HostCatalogueIsValid(frames, size, perUs);
    FragmentParses(d, p, k, perUs, frames[k], size, i);
  }

  // ---- In order, for any number of frames ----

  function Below(n: nat): (s: set<nat>)
    ensures forall i: nat :: i in s <==> i < n
  {
    if n == 0 then {} else Below(n - 1) + {n - 1}
  }

  /** The reference after the first `i` fragments of the frame with id `k` arrived in order. */
  function PartOf(k: nat, i: nat): Open { if i == 0 then map[] else map[k := Below(i)] }

  lemma NextFragment(k: nat, i: nat, d: seq<byte>)
    requires Parse(d).Some?
    requires var p := Parse(d).value; p.frameId == k && p.index == i && i < p.total
    ensures OpenStep(PartOf(k, i), d) == PartOf(k, if i + 1 == Parse(d).value.total then 0 else i + 1)
    ensures Completes(PartOf(k, i), d) <==> i + 1 == Parse(d).value.total
  {
    var indices := IndicesOf(PartOf(k, i), k) + {i};
    assert indices == Below(i + 1);
    assert Full(indices, Parse(d).value.total) <==> i + 1 == Parse(d).value.total by {
      if i + 1 < Parse(d).value.total {
        assert i + 1 !in indices;
      }
    }
  }

  ghost predicate InStream(sent: seq<seq<byte>>, frames: seq<Frame>, size: nat, perUs: u64)
    requires 0 < size < 0x1_0000
  {
    AllSendable(frames, size) && StreamOf(sent, frames, None, size, perUs)
  }

  /** Place of fragment `i` of frame `k`, and what the datagram there carries. */
  lemma Located(sent: seq<seq<byte>>, frames: seq<Frame>, size: nat, perUs: u64, k: nat, i: nat)
    requires 0 < size < 0x1_0000 && InStream(sent, frames, size, perUs)
    requires k < |frames| && i < |Chunks(frames[k].payload, size)|
    ensures Offset(frames, size, k) + i < |sent|
    ensures Carries(sent[Offset(frames, size, k) + i], Offset(frames, size, k) + i, k, perUs, frames[k], size, i)
  {
    hide Carries, Offset, Sendable, Chunks;
    assert WholeFrameAt(sent, Offset(frames, size, k), k, perUs, frames[k], size);
  }

  /** Delivered in order, at most one frame is ever open: the one being sent. */
  lemma {:induction false} OpenInOrder(
      sent: seq<seq<byte>>, frames: seq<Frame>, size: nat, perUs: u64, k: nat, i: nat)
    requires 0 < size < 0x1_0000 && InStream(sent, frames, size, perUs)
    requires k < |frames| && i < |Chunks(frames[k].payload, size)|
    ensures Offset(frames, size, k) + i < |sent|
    ensures OpenFrames(sent[..Offset(frames, size, k) + i]) == PartOf(k % FRAME_IDS, i)
    decreases k, i, 0
  {
    hide Carries, StreamOf, OpenStep, PartOf;
    Located(sent, frames, size, perUs, k, i);
    if i > 0 {
      AfterFragment(sent, frames, size, perUs, k, i - 1);
    } else if k > 0 {
      AfterFragment(sent, frames, size, perUs, k - 1, |Chunks(frames[k - 1].payload, size)| - 1);
      NothingOpen(k % FRAME_IDS, (k - 1) % FRAME_IDS);
    } else {
      NothingOpen(0, 0);
    }
  }

  lemma NothingOpen(k: nat, j: nat)
    ensures PartOf(k, 0) == PartOf(j, 0) == map[]
  {
  }

  lemma {:induction false} AfterFragment(
      sent: seq<seq<byte>>, frames: seq<Frame>, size: nat, perUs: u64, k: nat, i: nat)
    requires 0 < size < 0x1_0000 && InStream(sent, frames, size, perUs)
    requires k < |frames| && i < |Chunks(frames[k].payload, size)|
    ensures var total := |Chunks(frames[k].payload, size)|;
            var p := Offset(frames, size, k) + i;
            && p < |sent|
            && OpenFrames(sent[..p + 1]) == PartOf(k % FRAME_IDS, if i + 1 == total then 0 else i + 1)
    decreases k, i, 1
  {
    hide Carries, StreamOf, OpenStep, PartOf, Completes;
    var p := Offset(frames, size, k) + i;
    OpenInOrder(sent, frames, size, perUs, k, i);
    Located(sent, frames, size, perUs, k, i);
    FragmentParses(sent[p], p, k, perUs, frames[k], size, i);
    NextFragment(k % FRAME_IDS, i, sent[p]);
    assert sent[..p + 1][..p] == sent[..p] && sent[..p + 1][p] == sent[p];
  }

  /** Every place in the stream belongs to exactly one fragment of one frame. */
  lemma {:induction false} Locate(frames: seq<Frame>, size: nat, p: nat, n: nat) returns (k: nat, i: nat)
    requires size > 0 && n <= |frames| && p < Offset(frames, size, n)
    ensures k < n && i < |Chunks(frames[k].payload, size)| && p == Offset(frames, size, k) + i
    decreases n
  {
    if p >= Offset(frames, size, n - 1) {
      k, i := n - 1, p - Offset(frames, size, n - 1);
    } else {
      k, i := Locate(frames, size, p, n - 1);
    }
  }

  /** So the in-order stream always finds room in the table. */
  lemma StreamFits(sent: seq<seq<byte>>, frames: seq<Frame>, size: nat, perUs: u64)
    requires 0 < size < 0x1_0000 && InStream(sent, frames, size, perUs)
    ensures AlwaysFits(sent)
  {
    hide Carries, OpenFrames, StreamOf, Offset, Chunks, Parse, Sendable;
    StreamLength(sent, frames, size, perUs);
    forall p | 0 <= p < |sent| ensures Fits(OpenFrames(sent[..p]), sent[p]) {
      var k, i := Locate(frames, size, p, |frames|);
      OpenInOrder(sent, frames, size, perUs, k, i);
      assert |PartOf(k % FRAME_IDS, i)| <= 1;
    }
  }

  lemma StreamLength(sent: seq<seq<byte>>, frames: seq<Frame>, size: nat, perUs: u64)
    requires 0 < size < 0x1_0000 && InStream(sent, frames, size, perUs)
    ensures |sent| == Offset(frames, size, |frames|)
  {
  }

  // What a run does after the table has run empty depends on what came since only.

  lemma {:induction false} RunAfterEmpty(a: seq<seq<byte>>, b: seq<seq<byte>>)
    requires Run(a) == map[]
    ensures Run(a + b) == Run(b) && (b != [] ==> Emitted(a + b) == Emitted(b))
    decreases |b|
  {
    hide Deliver;
    if b == [] {
      assert a + b == a;
    } else {
      var before := b[..|b| - 1];
      RunAfterEmpty(a, before);
      assert (a + b)[..|a + b| - 1] == a + before;
    }
  }

  /** `f` is the first fragments of frame number `k`, in order. */
  ghost predicate Begins(f: seq<seq<byte>>, base: nat, k: nat, perUs: u64, frame: Frame, size: nat)
    requires 0 < size < 0x1_0000
  {
    && |f| <= |Chunks(frame.payload, size)|
    && forall j :: 0 <= j < |f| ==> Carries(f[j], base + j, k, perUs, frame, size, j)
  }

  lemma {:induction false} OpenAlone(f: seq<seq<byte>>, base: nat, k: nat, perUs: u64, frame: Frame, size: nat)
    requires 0 < size < 0x1_0000 && Begins(f, base, k, perUs, frame, size)
    ensures OpenFrames(f) == PartOf(k % FRAME_IDS, if |f| == |Chunks(frame.payload, size)| then 0 else |f|)
    ensures f != [] ==>
              (Completes(OpenFrames(f[..|f| - 1]), f[|f| - 1]) <==> |f| == |Chunks(frame.payload, size)|)
  {
    hide Carries, OpenStep, PartOf, Completes;
    if f == [] {
      NothingOpen(k % FRAME_IDS, 0);
    } else {
      var i := |f| - 1;
      OpenAlone(f[..i], base, k, perUs, frame, size);
      FragmentParses(f[i], base + i, k, perUs, frame, size, i);
      NextFragment(k % FRAME_IDS, i, f[i]);
    }
  }

  /** A frame on its own comes out at its last fragment and leaves the table empty. */
  lemma FrameAlone(f: seq<seq<byte>>, base: nat, k: nat, perUs: u64, frame: Frame, size: nat)
    requires 0 < size < 0x1_0000 && Sendable(frame, size) && f != [] && Begins(f, base, k, perUs, frame, size)
    ensures var whole := |f| == |Chunks(frame.payload, size)|;
            && Emitted(f) == (if whole then Some(OnWire(HostPacket(frame, k, perUs))) else None)
            && (whole ==> Run(f) == map[])
  {
    hide Carries, OpenFrames, OnWire, HostPacket, PieceOf, Completes, Emitted, Run, Chunks, Parse, Genuine, Catalogue;
    var key := k % FRAME_IDS;
    var one := map[key := HostSent(frame, k, perUs, size)];
    AloneIsGenuine(f, base, k, perUs, frame, size);
    OpenAlone(f, base, k, perUs, frame, size);
    forall n | 0 <= n < |f| ensures Fits(OpenFrames(f[..n]), f[n]) {
      OpenAlone(f[..n], base, k, perUs, frame, size);
      assert |PartOf(key, n)| <= 1;
    }
    Completeness(one, f);
    FragmentParses(f[|f| - 1], base + |f| - 1, k, perUs, frame, size, |f| - 1);
    if |f| == |Chunks(frame.payload, size)| {
      assert Run(f).Keys == {};
    }
  }

  lemma AloneIsGenuine(f: seq<seq<byte>>, base: nat, k: nat, perUs: u64, frame: Frame, size: nat)
    requires 0 < size < 0x1_0000 && Sendable(frame, size) && Begins(f, base, k, perUs, frame, size)
    ensures var one := map[k % FRAME_IDS := HostSent(frame, k, perUs, size)];
            Catalogue(one) && AllGenuine(one, f)
  {
    hide Carries, PieceOf, Parse;
    forall n | 0 <= n < |f|
      ensures Genuine(map[k % FRAME_IDS := HostSent(frame, k, perUs, size)], f[n])
    {
      FragmentParses(f[n], base + n, k, perUs, frame, size, n);
    }
  }

  lemma FrameBegins(sent: seq<seq<byte>>, frames: seq<Frame>, size: nat, perUs: u64, k: nat, n: nat)
    requires 0 < size < 0x1_0000 && InStream(sent, frames, size, perUs)
    requires k < |frames| && n <= |Chunks(frames[k].payload, size)|
    ensures var base := Offset(frames, size, k);
            base + n <= |sent| && Begins(sent[base..base + n], base, k, perUs, frames[k], size)
  {
    hide Carries, Offset, Chunks;
    assert WholeFrameAt(sent, Offset(frames, size, k), k, perUs, frames[k], size);
  }

  /** Between two frames of the in-order stream the table is empty. */
  lemma {:induction false} EmptyBetweenFrames(
      sent: seq<seq<byte>>, frames: seq<Frame>, size: nat, perUs: u64, k: nat)
    requires 0 < size < 0x1_0000 && InStream(sent, frames, size, perUs) && k <= |frames|
    ensures Offset(frames, size, k) <= |sent| && Run(sent[..Offset(frames, size, k)]) == map[]
  {
    hide Carries, Chunks, StreamOf, Begins, Sendable, Run, Emitted, OnWire, HostPacket;
    if k == 0 {
      EmptyAtFirst(sent);
    } else {
      var n := |Chunks(frames[k - 1].payload, size)|;
      var base := Offset(frames, size, k - 1);
      EmptyBetweenFrames(sent, frames, size, perUs, k - 1);
      FrameBegins(sent, frames, size, perUs, k - 1, n);
      FrameAlone(sent[base..base + n], base, k - 1, perUs, frames[k - 1], size);
      RunAfterEmpty(sent[..base], sent[base..base + n]);
      assert sent[..base] + sent[base..base + n] == sent[..base + n];
    }
  }

  lemma EmptyAtFirst(sent: seq<seq<byte>>)
    ensures Run(sent[..0]) == map[]
  {
  }

  /**
   * End to end: delivered in order, the stream gives back every frame, in order, each exactly at its last
   * fragment and nothing in between, also when the frame ids have run over.
   */
  lemma InOrderDelivery(sent: seq<seq<byte>>, frames: seq<Frame>, size: nat, perUs: u64, k: nat, i: nat)
    requires 0 < size < 0x1_0000 && InStream(sent, frames, size, perUs)
    requires k < |frames| && i < |Chunks(frames[k].payload, size)|
    ensures Offset(frames, size, k) + i < |sent|
    ensures Emitted(sent[..Offset(frames, size, k) + i + 1]) ==
            if i + 1 == |Chunks(frames[k].payload, size)|
            then Some(OnWire(HostPacket(frames[k], k, perUs)))
            else None
  {
    hide Chunks, StreamOf, Begins, Sendable, Offset, Emitted, Run, OnWire;
    var base := Offset(frames, size, k);
    EmptyBetweenFrames(sent, frames, size, perUs, k);
    FrameBegins(sent, frames, size, perUs, k, i + 1);
    FrameAlone(sent[base..base + i + 1], base, k, perUs, frames[k], size);
    RunAfterEmpty(sent[..base], sent[base..base + i + 1]);
    assert sent[..base] + sent[base..base + i + 1] == sent[..base + i + 1];
  }

  // ---- The receiver at work ----

  /** The first `n` frames as they survive the wire. */
  function Received(frames: seq<Frame>, n: nat, perUs: u64): seq<Packet>
    requires n <= |frames|
  {
    seq(n, k requires 0 <= k < n => OnWire(HostPacket(frames[k], k, perUs)))
  }

  lemma ReceivedNext(frames: seq<Frame>, k: nat, perUs: u64)
    requires k < |frames|
    ensures Received(frames, k + 1, perUs) == Received(frames, k, perUs) + [OnWire(HostPacket(frames[k], k, perUs))]
  {
  }

  /** Fragment `i` of frame `k` is the next one, or the stream is over. */
  ghost predicate NextIs(frames: seq<Frame>, size: nat, p: nat, k: nat, i: nat) {
    && size > 0 && k <= |frames| && p == Offset(frames, size, k) + i
    && if k < |frames| then i < |Chunks(frames[k].payload, size)| else i == 0
  }

  lemma NextAfter(frames: seq<Frame>, size: nat, p: nat, k: nat, i: nat)
    requires NextIs(frames, size, p, k, i) && k < |frames|
    ensures if i + 1 == |Chunks(frames[k].payload, size)| then NextIs(frames, size, p + 1, k + 1, 0)
            else NextIs(frames, size, p + 1, k, i + 1)
  {
  }

  lemma {:induction false} OffsetGrows(frames: seq<Frame>, size: nat, k: nat, n: nat)
    requires size > 0 && k <= n <= |frames|
    ensures Offset(frames, size, k) <= Offset(frames, size, n)
    decreases n
  {
    if k < n {
      OffsetGrows(frames, size, k, n - 1);
    }
  }

  /** The place in the stream says whether there is a next fragment. */
  lemma NextExists(frames: seq<Frame>, size: nat, p: nat, k: nat, i: nat)
    requires NextIs(frames, size, p, k, i)
    ensures k < |frames| <==> p < Offset(frames, size, |frames|)
  {
    if k < |frames| {
      OffsetGrows(frames, size, k + 1, |frames|);
    }
  }

  /** The stream, with the frame it was cut off in if the peer went away: all of its frames can be sent. */
  ghost predicate MaybeCut(sent: seq<seq<byte>>, frames: seq<Frame>, cut: Option<Frame>, size: nat, perUs: u64)
    requires 0 < size < 0x1_0000
  {
    && AllSendable(frames, size) && (cut.Some? ==> Sendable(cut.value, size))
    && StreamOf(sent, frames, cut, size, perUs)
  }

  lemma WholePart(sent: seq<seq<byte>>, frames: seq<Frame>, cut: Option<Frame>, size: nat, perUs: u64)
    requires 0 < size < 0x1_0000 && MaybeCut(sent, frames, cut, size, perUs)
    ensures var n := Offset(frames, size, |frames|);
            n <= |sent| && InStream(sent[..n], frames, size, perUs)
  {
    hide Carries, Offset, Chunks, Sendable;
    var n := Offset(frames, size, |frames|);
    forall k | 0 <= k < |frames|
      ensures WholeFrameAt(sent[..n], Offset(frames, size, k), k, perUs, frames[k], size)
    {
      assert WholeFrameAt(sent, Offset(frames, size, k), k, perUs, frames[k], size);
      OffsetGrows(frames, size, k + 1, |frames|);
      OffsetStep(frames, size, k);
    }
  }

  lemma OffsetStep(frames: seq<Frame>, size: nat, k: nat)
    requires size > 0 && k < |frames|
    ensures Offset(frames, size, k + 1) == Offset(frames, size, k) + |Chunks(frames[k].payload, size)|
  {
  }

  /** The fragments of the frame that was cut off give nothing. */
  lemma CutGivesNothing(
      sent: seq<seq<byte>>, frames: seq<Frame>, cut: Option<Frame>, size: nat, perUs: u64, p: nat)
    requires 0 < size < 0x1_0000 && MaybeCut(sent, frames, cut, size, perUs)
    requires Offset(frames, size, |frames|) <= p < |sent|
    ensures Emitted(sent[..p + 1]) == None
  {
    hide Carries, Offset, Chunks, Sendable, Run, Emitted, OnWire, HostPacket, WholeFrameAt;
    var n := Offset(frames, size, |frames|);
    WholePart(sent, frames, cut, size, perUs);
    EmptyBetweenFrames(sent[..n], frames, size, perUs, |frames|);
    assert sent[..n][..n] == sent[..n];
    FrameAlone(sent[n..p + 1], n, |frames|, perUs, cut.value, size);
    RunAfterEmpty(sent[..n], sent[n..p + 1]);
    assert sent[..n] + sent[n..p + 1] == sent[..p + 1];
  }

  /** A reassembler fed the stream hands out exactly its whole frames, in order. */
  method ReceiveStream(
      sent: seq<seq<byte>>, ghost frames: seq<Frame>, ghost cut: Option<Frame>, ghost size: nat, ghost perUs: u64)
    returns (packets: seq<Packet>)
    requires 0 < size < 0x1_0000 && MaybeCut(sent, frames, cut, size, perUs)
    ensures packets == Received(frames, |frames|, perUs)
  {
    hide Received, Deliver, Partial, OnWire, StreamOf, Offset, AllSendable, MaybeCut, InStream;
    ghost var end := Offset(frames, size, |frames|);
    WholePart(sent, frames, cut, size, perUs);
    NothingReceived(frames, size, perUs);
    var r := new Reassembler();
    packets := [];
    ghost var k, i := 0, 0;
    NextExists(frames, size, 0, 0, 0);
    for p := 0 to |sent|
      invariant p <= end ==> NextIs(frames, size, p, k, i)
      invariant k <= |frames| && (p >= end ==> k == |frames|) && packets == Received(frames, k, perUs)
      invariant Structured(r.buffers) && r.buffers == Run(sent[..p])
    {
      assert sent[..p + 1][..p] == sent[..p] && sent[..p + 1][p] == sent[p];
      var out := r.Ingest(sent[p]);
      assert out == Emitted(sent[..p + 1]);
      if p < end {
        NextExists(frames, size, p, k, i);
        InOrderDelivery(sent[..end], frames, size, perUs, k, i);
        assert sent[..end][..p + 1] == sent[..p + 1];
        NextAfter(frames, size, p, k, i);
        ReceivedNext(frames, k, perUs);
      } else {
        CutGivesNothing(sent, frames, cut, size, perUs, p);
      }
      if out.Some? {
        packets := packets + [out.value];
        k, i := k + 1, 0;
      } else {
        i := i + 1;
      }
      if p + 1 == end {
        NextExists(frames, size, p + 1, k, i);
      }
    }
  }

  lemma NothingReceived(frames: seq<Frame>, size: nat, perUs: u64)
    requires size > 0
    ensures Received(frames, 0, perUs) == [] && NextIs(frames, size, 0, 0, 0)
  {
  }

  lemma {:induction false} SendableOnly(script: seq<Frame>, size: nat)
    requires size > 0
    ensures AllSendable(SendableOf(script, size), size)
  {
    if script != [] {
      SendableOnly(script[1..], size);
    }
  }

  /**
   * The whole path, from the encoder's script to the receiver: the packets rebuilt are the first sendable frames
   * of the script, in order. They are as many as were asked for, or as the source could give, or as had gone out
   * whole when the peer went away.
   */
  method StreamAndReceive(
      channel: Channel, source: FrameSource, framesToSend: nat, perUs: u64, maxFragmentBytes: nat)
    returns (outcome: Outcome, packets: seq<Packet>)
    requires channel.sent == []
    modifies channel, source
    ensures var size := ChunkSize(maxFragmentBytes);
            var frames, n := SendableOf(old(source.script), size), |packets|;
            && n <= |frames| && n <= framesToSend && packets == Received(frames[..n], n, perUs)
            && (outcome == Complete ==> n == framesToSend)
            && (outcome == SourceFailed ==> n == |frames|)
            && (outcome == Closed ==> n < |frames|)
            && StreamOf(channel.sent, frames[..n], if outcome == Closed then Some(frames[n]) else None, size, perUs)
  {
    hide OnWire, HostPacket, StreamOf, Carries, Chunks, Sendable;
    ghost var script, size := source.script, ChunkSize(maxFragmentBytes);
    ghost var frames: seq<Frame>, cut: Option<Frame>;
    outcome, frames, cut := RunVideoSendLoop(channel, source, framesToSend, perUs, maxFragmentBytes);
    SendableOnly(script, size);
    ghost var all := SendableOf(script, size);
    assert frames == all[..|frames|] && (cut.Some? ==> all[|frames|] == cut.value);
    packets := ReceiveStream(channel.sent, frames, cut, size, perUs);
  }
}
