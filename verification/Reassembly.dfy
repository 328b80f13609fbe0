/**
 * What the reassembler guarantees over a whole run, whatever the network loses, repeats, reorders
 * or interleaves: nothing is corrupted, and nothing is missed unless the buffer overflows.
 */
module Reassembly {
  import opened Wire
  import opened Chunking
  import opened Packetize

  /** A packet that was sent, with the chunk size it was cut with. */
  datatype SentPacket = SentPacket(packet: Packet, size: nat)

  function Cut(s: SentPacket): seq<seq<byte>>
    requires s.size > 0
  {
    Chunks(s.packet.data, s.size)
  }

  /** The packets sent, filed under their 24-bit id: no two share one. */
  ghost predicate Catalogue(sent: map<nat, SentPacket>) {
    forall k :: k in sent ==>
      sent[k].size > 0 && |Cut(sent[k])| <= 255 && k == sent[k].packet.frameId % FRAME_IDS
  }

  ghost predicate PieceOf(s: SentPacket, p: Piece)
    requires s.size > 0
  {
    && p.total == |Cut(s)| && p.index < p.total
    && p.chunk == Cut(s)[p.index]
    && p.frameId == s.packet.frameId % FRAME_IDS
    && p.timestamp == s.packet.captureTs % TIMESTAMPS
    && p.codec == s.packet.codec && p.frameType == s.packet.frameType
  }

  /** Anything else on the channel is ignored; what is not ignored is a fragment of a sent packet. */
  ghost predicate Genuine(sent: map<nat, SentPacket>, d: seq<byte>)
    requires Catalogue(sent)
  {
    Parse(d).Some? ==>
      Parse(d).value.frameId in sent && PieceOf(sent[Parse(d).value.frameId], Parse(d).value)
  }

  ghost predicate AllGenuine(sent: map<nat, SentPacket>, ds: seq<seq<byte>>)
    requires Catalogue(sent)
  {
    forall n :: 0 <= n < |ds| ==> Genuine(sent, ds[n])
  }

  /** Everything `Fragment` produces is genuine for the packet it was given. */
  lemma FragmentsAreGenuine(sent: map<nat, SentPacket>, k: nat, seqStart: u16, d: seq<byte>, i: nat)
    requires Catalogue(sent) && k in sent
    requires IsFragment(d, sent[k].packet, seqStart, sent[k].size, i)
    ensures Parse(d).Some? && Parse(d).value.index == i && Genuine(sent, d)
  {
    hide DecodeCommon, DecodeVideo;
  }

  // ---- Runs ----

  function Run(ds: seq<seq<byte>>): Buffers {
    if ds == [] then map[] else Deliver(Run(ds[..|ds| - 1]), ds[|ds| - 1]).0
  }

  /** What the last delivery of a run emitted. */
  function Emitted(ds: seq<seq<byte>>): Option<Packet>
    requires ds != []
  {
    Deliver(Run(ds[..|ds| - 1]), ds[|ds| - 1]).1
  }

  // ---- Nothing is corrupted ----

  ghost predicate Mirrors(s: SentPacket, b: FrameBuffer) {
    && s.size > 0
    && b.totalFrags == |Cut(s)| == |b.slots|
    && (forall i :: 0 <= i < |b.slots| && b.slots[i].Some? ==> b.slots[i].value == Cut(s)[i])
    && b.codec == s.packet.codec && b.frameType == s.packet.frameType
    && b.frameId == s.packet.frameId % FRAME_IDS
    && b.captureTs == s.packet.captureTs % TIMESTAMPS
  }

  ghost predicate Uncorrupted(sent: map<nat, SentPacket>, buffers: Buffers) {
    Structured(buffers) && AllMirror(sent, buffers)
  }

  lemma {:induction false} AssembleFull(slots: seq<Option<seq<byte>>>, chunks: seq<seq<byte>>)
    requires |slots| == |chunks|
    requires forall i :: 0 <= i < |slots| ==> slots[i] == Some(chunks[i])
    ensures Assemble(slots) == Flatten(chunks)
  {
    if slots != [] {
      AssembleFull(slots[1..], chunks[1..]);
    }
  }

  /** The buffer a piece lands in, before the piece is placed. */
  function Target(buffers: Buffers, p: Piece): FrameBuffer {
    var kept := AfterEviction(buffers, p.frameId);
    if p.frameId in kept then kept[p.frameId] else Opened(p)
  }

  lemma TargetMirrors(sent: map<nat, SentPacket>, buffers: Buffers, p: Piece)
    requires Catalogue(sent) && Uncorrupted(sent, buffers)
    requires p.frameId in sent && PieceOf(sent[p.frameId], p)
    ensures var b := Target(buffers, p);
            Mirrors(sent[p.frameId], b) && b.received == Filled(b.slots) < b.totalFrags
  {
    hide AfterEviction;
    EvictionMakesRoom(buffers, p.frameId);
    FilledBounds(Opened(p).slots);
  }

  lemma FilledBufferIsThePacket(s: SentPacket, b: FrameBuffer)
    requires Mirrors(s, b) && Filled(b.slots) == |b.slots|
    ensures Completed(b) == OnWire(s.packet)
  {
    FilledBounds(b.slots);
    AssembleFull(b.slots, Cut(s));
    FlattenChunks(s.packet.data, s.size);
  }

  lemma SlotMirrors(s: SentPacket, b: FrameBuffer, p: Piece)
    requires Mirrors(s, b) && PieceOf(s, p)
    ensures Mirrors(s, b.(slots := b.slots[p.index := Some(p.chunk)], received := b.received + 1))
  {
  }

  ghost predicate AllMirror(sent: map<nat, SentPacket>, buffers: Buffers) {
    forall k :: k in buffers ==> k in sent && Mirrors(sent[k], buffers[k])
  }

  lemma AllMirrorUpdate(sent: map<nat, SentPacket>, buffers: Buffers, k: nat, b: FrameBuffer)
    requires AllMirror(sent, buffers) && k in sent && Mirrors(sent[k], b)
    ensures AllMirror(sent, buffers[k := b]) && AllMirror(sent, buffers - {k})
  {
    hide Mirrors;
  }

  lemma KeptMirrors(sent: map<nat, SentPacket>, buffers: Buffers, k: nat)
    requires Uncorrupted(sent, buffers)
    ensures AllMirror(sent, AfterEviction(buffers, k))
  {
    hide AfterEviction, Mirrors;
    EvictionMakesRoom(buffers, k);
  }

  lemma PlaceIsFaithful(sent: map<nat, SentPacket>, buffers: Buffers, p: Piece)
    requires Catalogue(sent) && Uncorrupted(sent, buffers)
    requires p.frameId in sent && PieceOf(sent[p.frameId], p)
    ensures AllMirror(sent, Place(buffers, p).0)
    ensures Place(buffers, p).1.Some? ==> Place(buffers, p).1.value == OnWire(sent[p.frameId].packet)
  {
    hide AfterEviction, Mirrors, Filled, Completed, AllMirror;
    var k, s, b := p.frameId, sent[p.frameId], Target(buffers, p);
    TargetMirrors(sent, buffers, p);
    MirrorsShape(s, b);
    var kept := AfterEviction(buffers, k);
    KeptMirrors(sent, buffers, k);
    AllMirrorUpdate(sent, kept, k, b);
    if b.slots[p.index].None? {
      var b' := b.(slots := b.slots[p.index := Some(p.chunk)], received := b.received + 1);
      SlotMirrors(s, b, p);
      AllMirrorUpdate(sent, kept, k, b');
      FilledUpdate(b.slots, p.index, p.chunk);
      if b'.received == b'.totalFrags {
        FilledBufferIsThePacket(s, b');
      }
    }
  }

  /** On any network, every packet emitted is a packet that was sent: same bytes, same metadata. */
  lemma {:induction false} NoCorruption(sent: map<nat, SentPacket>, ds: seq<seq<byte>>)
    requires Catalogue(sent) && AllGenuine(sent, ds)
    ensures Uncorrupted(sent, Run(ds))
    ensures ds != [] && Emitted(ds).Some? ==>
              var d := ds[|ds| - 1];
              Parse(d).Some? && Emitted(ds).value == OnWire(sent[Parse(d).value.frameId].packet)
  {
    if ds != [] {
      var before, d := ds[..|ds| - 1], ds[|ds| - 1];
      NoCorruption(sent, before);
      DeliverKeepsStructure(Run(before), d);
      if Parse(d).Some? {
        PlaceIsFaithful(sent, Run(before), Parse(d).value);
      }
    }
  }

  // ---- Nothing is missed ----

  ghost predicate Full(s: set<nat>, total: nat) {
    forall i :: 0 <= i < total ==> i in s
  }

  /** For each frame with a fragment missing, the indices that arrived since it was last complete. */
  type Open = map<nat, set<nat>>

  function IndicesOf(open: Open, k: nat): set<nat> {
    if k in open then open[k] else {}
  }

  /** A piece adds its index to its frame, or closes the frame if it was the last one missing. */
  ghost function OpenAfter(open: Open, p: Piece): Open {
    var indices := IndicesOf(open, p.frameId) + {p.index as nat};
    if Full(indices, p.total) then open - {p.frameId} else open[p.frameId := indices]
  }

  /** The reference: no buffers, no slots, no counters, no limit on how many frames are open. */
  ghost function OpenStep(open: Open, d: seq<byte>): Open {
    match Parse(d)
    case None => open
    case Some(p) => OpenAfter(open, p)
  }

  ghost function OpenFrames(ds: seq<seq<byte>>): Open {
    if ds == [] then map[] else OpenStep(OpenFrames(ds[..|ds| - 1]), ds[|ds| - 1])
  }

  /** `d` brings the last missing fragment of its frame. */
  ghost predicate Completes(open: Open, d: seq<byte>) {
    && Parse(d).Some?
    && var p := Parse(d).value; Full(IndicesOf(open, p.frameId) + {p.index as nat}, p.total)
  }

  /** A datagram finds room: it is ignored, its frame is already open, or fewer than 32 frames are. */
  ghost predicate Fits(open: Open, d: seq<byte>) {
    Parse(d).Some? ==> Parse(d).value.frameId in open || |open| < 32
  }

  ghost predicate AlwaysFits(ds: seq<seq<byte>>) {
    forall n :: 0 <= n < |ds| ==> Fits(OpenFrames(ds[..n]), ds[n])
  }

  ghost predicate Holds(b: FrameBuffer, indices: set<nat>) {
    forall i: nat :: i in indices <==> i < |b.slots| && b.slots[i].Some?
  }

  /** The buffers hold exactly the open frames, with exactly the indices that arrived. */
  ghost predicate Tracks(buffers: Buffers, open: Open) {
    buffers.Keys == open.Keys && forall k :: k in buffers ==> Holds(buffers[k], open[k])
  }

  lemma FullMeansFilled(b: FrameBuffer, indices: set<nat>)
    requires Holds(b, indices)
    ensures Full(indices, |b.slots|) <==> Filled(b.slots) == |b.slots|
  {
    FilledBounds(b.slots);
  }

  lemma SlotAdded(b: FrameBuffer, indices: set<nat>, i: nat, chunk: seq<byte>)
    requires Holds(b, indices) && i < |b.slots|
    ensures Holds(b.(slots := b.slots[i := Some(chunk)], received := b.received + 1), indices + {i})
  {
  }

  /** A piece emits a packet exactly when it closes its frame, and the buffers go on holding the open frames. */
  ghost predicate InStep(buffers: Buffers, open: Open, p: Piece) {
    && (Place(buffers, p).1.Some? <==> Full(IndicesOf(open, p.frameId) + {p.index as nat}, p.total))
    && Tracks(Place(buffers, p).0, OpenAfter(open, p))
  }

  lemma PlaceTracks(sent: map<nat, SentPacket>, buffers: Buffers, open: Open, p: Piece)
    requires Catalogue(sent) && Uncorrupted(sent, buffers) && Tracks(buffers, open)
    requires p.frameId in sent && PieceOf(sent[p.frameId], p)
    requires p.frameId in open || |open| < 32
    ensures InStep(buffers, open, p)
  {
    hide Assemble, Filled, Holds, Mirrors, Full, Tracks, AllMirror;
    KeepsAll(buffers, open, p.frameId);
    var b := Target(buffers, p);
    TargetMirrors(sent, buffers, p);
    MirrorsShape(sent[p.frameId], b);
    var indices := IndicesOf(open, p.frameId);
    TargetHolds(buffers, open, p);
    FullMeansFilled(b, indices);
    SlotState(b, indices, p.index);
    if b.slots[p.index].Some? {
      assert indices + {p.index as nat} == indices;
      TracksUpdate(buffers, open, p.frameId, b, indices);
    } else {
      var b' := b.(slots := b.slots[p.index := Some(p.chunk)], received := b.received + 1);
      FilledUpdate(b.slots, p.index, p.chunk);
      SlotAdded(b, indices, p.index, p.chunk);
      FullMeansFilled(b', indices + {p.index as nat});
      TracksUpdate(buffers, open, p.frameId, b', indices + {p.index as nat});
    }
  }

  lemma KeepsAll(buffers: Buffers, open: Open, k: nat)
    requires Tracks(buffers, open) && (k in open || |open| < 32)
    ensures AfterEviction(buffers, k) == buffers
  {
    assert |buffers| == |buffers.Keys| == |open.Keys| == |open|;
  }

  lemma TracksUpdate(buffers: Buffers, open: Open, k: nat, b: FrameBuffer, indices: set<nat>)
    requires Tracks(buffers, open) && Holds(b, indices)
    ensures Tracks(buffers[k := b], open[k := indices]) && Tracks(buffers - {k}, open - {k})
  {
    hide Holds;
  }

  lemma TargetHolds(buffers: Buffers, open: Open, p: Piece)
    requires Tracks(buffers, open) && AfterEviction(buffers, p.frameId) == buffers
    ensures Holds(Target(buffers, p), IndicesOf(open, p.frameId))
  {
    hide Holds;
    OpenedHoldsNothing(p);
  }

  lemma MirrorsShape(s: SentPacket, b: FrameBuffer)
    requires Mirrors(s, b)
    ensures s.size > 0 && b.totalFrags == |Cut(s)| == |b.slots|
  {
  }

  lemma SlotState(b: FrameBuffer, indices: set<nat>, i: nat)
    requires Holds(b, indices) && i < |b.slots|
    ensures i in indices <==> b.slots[i].Some?
  {
  }

  lemma OpenedHoldsNothing(p: Piece)
    ensures Holds(Opened(p), {})
  {
  }

  /**
   * As long as every datagram finds room, the bounded, evicting buffer behaves like the unlimited
   * reference, and a frame is emitted exactly when its last missing index arrives.
   */
  lemma {:induction false} Completeness(sent: map<nat, SentPacket>, ds: seq<seq<byte>>)
    requires Catalogue(sent) && AllGenuine(sent, ds) && AlwaysFits(ds)
    ensures Tracks(Run(ds), OpenFrames(ds))
    ensures ds != [] ==>
              var before, d := ds[..|ds| - 1], ds[|ds| - 1];
              && (Emitted(ds).Some? <==> Completes(OpenFrames(before), d))
              && (Emitted(ds).Some? ==> Emitted(ds).value == OnWire(sent[Parse(d).value.frameId].packet))
  {
    if ds != [] {
      hide Place, Uncorrupted;
      var before, d := ds[..|ds| - 1], ds[|ds| - 1];
      assert forall n :: 0 <= n < |before| ==> before[..n] == ds[..n];
      Completeness(sent, before);
      NoCorruption(sent, before);
      NoCorruption(sent, ds);
      if Parse(d).Some? {
        PlaceTracks(sent, Run(before), OpenFrames(before), Parse(d).value);
      }
    }
  }

  /** A datagram that finds no room costs the run a frame it had open. */
  lemma OverflowLoses(buffers: Buffers, open: Open, d: seq<byte>)
    requires Tracks(buffers, open) && !Fits(open, d)
    ensures var lost := Lowest(open.Keys);
            lost in OpenStep(open, d) && lost !in Deliver(buffers, d).0
  {
    assert |buffers| == |buffers.Keys| == |open.Keys| == |open|;
  }

  /** A frame of one fragment completes at once and leaves as many frames open, but costs one all the same. */
  lemma SingleFragmentOverflow(buffers: Buffers, open: Open, d: seq<byte>)
    requires Tracks(buffers, open) && !Fits(open, d) && Parse(d).value.total == 1
    ensures OpenStep(open, d) == open
    ensures Lowest(open.Keys) !in Deliver(buffers, d).0
  {
    OverflowLoses(buffers, open, d);
    var p := Parse(d).value;
    assert Full(IndicesOf(open, p.frameId) + {p.index as nat}, p.total);
  }

  ghost predicate TracksThroughout(ds: seq<seq<byte>>) {
    forall n :: 0 <= n <= |ds| ==> Tracks(Run(ds[..n]), OpenFrames(ds[..n]))
  }

  /**
   * The exact condition: the buffer keeps up with the reference through a whole run if and only if
   * no datagram of a new frame arrives while 32 others are open. It is not enough that at most 32
   * frames are open after every step, because room is made before a single-fragment frame completes.
   */
  lemma LosslessExactlyWhenItFits(sent: map<nat, SentPacket>, ds: seq<seq<byte>>)
    requires Catalogue(sent) && AllGenuine(sent, ds)
    ensures TracksThroughout(ds) <==> AlwaysFits(ds)
  {
    hide Tracks, Fits, Genuine, Run, OpenFrames;
    if AlwaysFits(ds) {
      forall n | 0 <= n <= |ds| ensures Tracks(Run(ds[..n]), OpenFrames(ds[..n])) {
        assert forall m :: 0 <= m < n ==> ds[..n][..m] == ds[..m];
        Completeness(sent, ds[..n]);
      }
    }
    if TracksThroughout(ds) {
      forall n | 0 <= n < |ds| ensures Fits(OpenFrames(ds[..n]), ds[n]) {
        assert ds[..n + 1][..n] == ds[..n] && ds[..n + 1][n] == ds[n];
        TracksOnlyIfItFits(ds[..n + 1]);
      }
    }
  }

  lemma TracksOnlyIfItFits(ds: seq<seq<byte>>)
    requires ds != []
    requires Tracks(Run(ds[..|ds| - 1]), OpenFrames(ds[..|ds| - 1])) && Tracks(Run(ds), OpenFrames(ds))
    ensures Fits(OpenFrames(ds[..|ds| - 1]), ds[|ds| - 1])
  {
    hide Deliver, OpenStep;
    var buffers, open, d := Run(ds[..|ds| - 1]), OpenFrames(ds[..|ds| - 1]), ds[|ds| - 1];
    if !Fits(open, d) {
      OverflowLoses(buffers, open, d);
    }
  }

  /** The indices of frame `k` delivered over a whole run. */
  ghost function Delivered(ds: seq<seq<byte>>, k: nat): set<nat> {
    if ds == [] then {}
    else
      var before, p := Delivered(ds[..|ds| - 1], k), Parse(ds[|ds| - 1]);
      if p.Some? && p.value.frameId == k then before + {p.value.index as nat} else before
  }

  lemma {:induction false} OpenUntilComplete(sent: map<nat, SentPacket>, ds: seq<seq<byte>>, k: nat)
    requires Catalogue(sent) && AllGenuine(sent, ds) && k in sent
    requires !Full(Delivered(ds, k), |Cut(sent[k])|)
    ensures IndicesOf(OpenFrames(ds), k) == Delivered(ds, k)
  {
    if ds != [] {
      OpenUntilComplete(sent, ds[..|ds| - 1], k);
    }
  }

  /** A frame is first emitted at the very step that delivers the last of its distinct indices. */
  lemma FirstEmission(sent: map<nat, SentPacket>, ds: seq<seq<byte>>, k: nat)
    requires ds != [] && Catalogue(sent) && AllGenuine(sent, ds) && AlwaysFits(ds) && k in sent
    requires !Full(Delivered(ds[..|ds| - 1], k), |Cut(sent[k])|)
    ensures Full(Delivered(ds, k), |Cut(sent[k])|) <==>
              (Emitted(ds) == Some(OnWire(sent[k].packet)) && Parse(ds[|ds| - 1]).value.frameId == k)
  {
    hide Run, Emitted;
    OpenUntilComplete(sent, ds[..|ds| - 1], k);
    Completeness(sent, ds);
  }

  // ---- Any frame of any run ----

  /** The last delivery of a run handed out frame `k`. */
  ghost predicate Emits(ds: seq<seq<byte>>, k: nat) {
    ds != [] && Emitted(ds).Some? && Parse(ds[|ds| - 1]).Some? && Parse(ds[|ds| - 1]).value.frameId == k
  }

  /** The last delivery of a run opened a frame in a full table and pushed out `k`, the lowest in it. */
  ghost predicate Evicts(ds: seq<seq<byte>>, k: nat) {
    && ds != [] && Parse(ds[|ds| - 1]).Some?
    && PushedOut(Run(ds[..|ds| - 1]), Parse(ds[|ds| - 1]).value.frameId, k)
  }

  ghost predicate PushedOut(buffers: Buffers, key: nat, k: nat) {
    key !in buffers && |buffers| >= 32 && k == Lowest(buffers.Keys)
  }

  ghost predicate Leaves(ds: seq<seq<byte>>, k: nat) { Emits(ds, k) || Evicts(ds, k) }

  /** What the table holds of frame `k`. */
  ghost predicate HoldsOf(buffers: Buffers, k: nat, indices: set<nat>) {
    if k in buffers then Holds(buffers[k], indices) else indices == {}
  }

  lemma LeftIsGone(ds: seq<seq<byte>>, k: nat)
    requires Leaves(ds, k)
    ensures k !in Run(ds)
  {
  }

  lemma OwnPiece(sent: map<nat, SentPacket>, buffers: Buffers, p: Piece, indices: set<nat>)
    requires Catalogue(sent) && Uncorrupted(sent, buffers)
    requires p.frameId in sent && PieceOf(sent[p.frameId], p) && HoldsOf(buffers, p.frameId, indices)
    ensures Place(buffers, p).1.Some? <==> Full(indices + {p.index as nat}, p.total)
    ensures Place(buffers, p).1.None? ==> HoldsOf(Place(buffers, p).0, p.frameId, indices + {p.index as nat})
  {
    hide Assemble, Filled, Holds, Mirrors, Full, AllMirror;
    var b := Target(buffers, p);
    TargetMirrors(sent, buffers, p);
    MirrorsShape(sent[p.frameId], b);
    OpenedHoldsNothing(p);
    assert Holds(b, indices);
    FullMeansFilled(b, indices);
    SlotState(b, indices, p.index);
    if b.slots[p.index].Some? {
      assert indices + {p.index as nat} == indices;
    } else {
      FilledUpdate(b.slots, p.index, p.chunk);
      SlotAdded(b, indices, p.index, p.chunk);
      FullMeansFilled(b.(slots := b.slots[p.index := Some(p.chunk)], received := b.received + 1),
                      indices + {p.index as nat});
    }
  }

  lemma OtherPiece(buffers: Buffers, p: Piece, k: nat, indices: set<nat>)
    requires k != p.frameId && HoldsOf(buffers, k, indices) && !PushedOut(buffers, p.frameId, k)
    ensures HoldsOf(Place(buffers, p).0, k, indices)
  {
    hide Holds;
  }

  /** Since frame `k` last left the table, it holds exactly the indices of it that have arrived. */
  lemma {:induction false} HeldSinceItLeft(sent: map<nat, SentPacket>, ds: seq<seq<byte>>, m: nat, k: nat)
    requires Catalogue(sent) && AllGenuine(sent, ds) && k in sent && m <= |ds|
    requires m == 0 || Leaves(ds[..m], k)
    requires forall j :: m < j <= |ds| ==> !Leaves(ds[..j], k)
    ensures HoldsOf(Run(ds), k, Delivered(ds[m..], k))
  {
    hide Emitted, Place, Leaves, HoldsOf, Uncorrupted, Genuine;
    assert ds[..|ds|] == ds;
    if m == |ds| {
      NothingHeld(ds, k);
    } else {
      var before := ds[..|ds| - 1];
      assert before[..m] == ds[..m] && forall j :: m < j <= |before| ==> before[..j] == ds[..j];
      HeldSinceItLeft(sent, before, m, k);
      LastDelivered(ds, m, k);
      NoCorruption(sent, before);
      HeldAfterStep(sent, ds, k, Delivered(before[m..], k));
    }
  }

  lemma NothingHeld(ds: seq<seq<byte>>, k: nat)
    requires ds == [] || Leaves(ds, k)
    ensures HoldsOf(Run(ds), k, {})
  {
    if ds != [] {
      LeftIsGone(ds, k);
    }
  }

  /** The indices of frame `k` after one more datagram. */
  ghost function Joined(indices: set<nat>, d: seq<byte>, k: nat): set<nat> {
    if Parse(d).Some? && Parse(d).value.frameId == k then indices + {Parse(d).value.index as nat} else indices
  }

  lemma LastDelivered(ds: seq<seq<byte>>, m: nat, k: nat)
    requires m < |ds|
    ensures Delivered(ds[m..], k) == Joined(Delivered(ds[..|ds| - 1][m..], k), ds[|ds| - 1], k)
  {
    assert ds[m..][..|ds| - m - 1] == ds[..|ds| - 1][m..];
  }

  lemma HeldAfterStep(sent: map<nat, SentPacket>, ds: seq<seq<byte>>, k: nat, indices: set<nat>)
    requires ds != [] && Catalogue(sent) && AllGenuine(sent, ds) && k in sent
    requires Uncorrupted(sent, Run(ds[..|ds| - 1])) && HoldsOf(Run(ds[..|ds| - 1]), k, indices)
    ensures !Leaves(ds, k) ==> HoldsOf(Run(ds), k, Joined(indices, ds[|ds| - 1], k))
    ensures Emits(ds, k) <==> Full(Joined(indices, ds[|ds| - 1], k), |Cut(sent[k])|)
  {
    hide Place, HoldsOf, Uncorrupted, PushedOut;
    var buffers, d := Run(ds[..|ds| - 1]), ds[|ds| - 1];
    assert Genuine(sent, d);
    if Parse(d).Some? && Parse(d).value.frameId == k {
      OwnPiece(sent, buffers, Parse(d).value, indices);
    } else {
      StillPartial(sent, buffers, k, indices);
      if Parse(d).Some? && !PushedOut(buffers, Parse(d).value.frameId, k) {
        OtherPiece(buffers, Parse(d).value, k, indices);
      }
    }
  }

  lemma StillPartial(sent: map<nat, SentPacket>, buffers: Buffers, k: nat, indices: set<nat>)
    requires Catalogue(sent) && Uncorrupted(sent, buffers) && k in sent && HoldsOf(buffers, k, indices)
    ensures !Full(indices, |Cut(sent[k])|)
  {
    if k in buffers {
      FullMeansFilled(buffers[k], indices);
    } else {
      assert 0 !in indices;
    }
  }

  /**
   * With no assumption on how many frames are open: a frame is handed out exactly when all of its indices have
   * arrived since it last left the table, handed out before or pushed out. So late duplicates open it again.
   */
  lemma EmissionExactly(sent: map<nat, SentPacket>, ds: seq<seq<byte>>, m: nat, k: nat)
    requires Catalogue(sent) && AllGenuine(sent, ds) && k in sent && m < |ds|
    requires m == 0 || Leaves(ds[..m], k)
    requires forall j :: m < j < |ds| ==> !Leaves(ds[..j], k)
    ensures Emits(ds, k) <==> Full(Delivered(ds[m..], k), |Cut(sent[k])|)
    ensures Emits(ds, k) ==> Emitted(ds) == Some(OnWire(sent[k].packet))
  {
    hide Emitted, Leaves, HoldsOf, Uncorrupted, Genuine;
    var before := ds[..|ds| - 1];
    assert before[..m] == ds[..m] && forall j :: m < j <= |before| ==> before[..j] == ds[..j];
    HeldSinceItLeft(sent, before, m, k);
    NoCorruption(sent, before);
    NoCorruption(sent, ds);
    LastDelivered(ds, m, k);
    HeldAfterStep(sent, ds, k, Delivered(before[m..], k));
  }

  // ---- Datagrams from anyone ----

  /** Some datagram of the run brought `chunk` as piece `i` of `total` of frame `k`. */
  ghost predicate Came(ds: seq<seq<byte>>, k: nat, i: nat, total: nat, chunk: seq<byte>) {
    exists n :: 0 <= n < |ds| && Brings(ds[n], k, i, total, chunk)
  }

  ghost predicate Brings(d: seq<byte>, k: nat, i: nat, total: nat, chunk: seq<byte>) {
    && Parse(d).Some?
    && var p := Parse(d).value; p.frameId == k && p.index == i && p.total == total && p.chunk == chunk
  }

  ghost predicate AllCame(ds: seq<seq<byte>>, k: nat, b: FrameBuffer) {
    && b.frameId == k && |b.slots| == b.totalFrags
    && forall i :: 0 <= i < |b.slots| && b.slots[i].Some? ==> Came(ds, k, i, b.totalFrags, b.slots[i].value)
  }

  ghost predicate NoneInvented(ds: seq<seq<byte>>, buffers: Buffers) {
    forall k :: k in buffers ==> AllCame(ds, k, buffers[k])
  }

  lemma StillCame(ds: seq<seq<byte>>, d: seq<byte>, k: nat, b: FrameBuffer)
    requires AllCame(ds, k, b)
    ensures AllCame(ds + [d], k, b)
  {
    hide Brings;
    forall i | 0 <= i < |b.slots| && b.slots[i].Some? ensures Came(ds + [d], k, i, b.totalFrags, b.slots[i].value) {
      var n :| 0 <= n < |ds| && Brings(ds[n], k, i, b.totalFrags, b.slots[i].value);
      assert (ds + [d])[n] == ds[n];
    }
  }

  /** A packet put together from pieces that came, one for each index of one total. */
  ghost predicate MadeOf(ds: seq<seq<byte>>, k: nat, out: Packet) {
    exists chunks: seq<seq<byte>> :: PutTogether(ds, k, out, chunks)
  }

  ghost predicate PutTogether(ds: seq<seq<byte>>, k: nat, out: Packet, chunks: seq<seq<byte>>) {
    && chunks != [] && out.data == Flatten(chunks) && out.frameId == k
    && forall i :: 0 <= i < |chunks| ==> Came(ds, k, i, |chunks|, chunks[i])
  }

  lemma OpenedCame(ds: seq<seq<byte>>, p: Piece)
    ensures AllCame(ds, p.frameId, Opened(p))
  {
  }

  lemma PlaceInventsNothing(ds: seq<seq<byte>>, buffers: Buffers, d: seq<byte>)
    requires Structured(buffers) && NoneInvented(ds, buffers) && Parse(d).Some?
    ensures var p := Parse(d).value;
            var (after, out) := Place(buffers, p);
            && NoneInvented(ds + [d], after)
            && (out.Some? ==> MadeOf(ds + [d], p.frameId, out.value))
  {
    hide AllCame, AfterEviction, Parse, Assemble, Filled, Brings, MadeOf;
    var p := Parse(d).value;
    var b := Target(buffers, p);
    EvictionMakesRoom(buffers, p.frameId);
    OpenedCame(ds, p);
    forall k | k in buffers ensures AllCame(ds + [d], k, buffers[k]) { StillCame(ds, d, k, buffers[k]); }
    StillCame(ds, d, p.frameId, b);
    TargetShape(ds, buffers, p);
    if p.total == b.totalFrags && b.slots[p.index].None? {
      var b' := b.(slots := b.slots[p.index := Some(p.chunk)], received := b.received + 1);
      OneMoreCame(ds, d, b);
      FilledUpdate(b.slots, p.index, p.chunk);
      if b'.received == b'.totalFrags {
        FullIsMade(ds + [d], p.frameId, b');
      }
    }
  }

  lemma TargetShape(ds: seq<seq<byte>>, buffers: Buffers, p: Piece)
    requires Structured(buffers) && NoneInvented(ds, buffers) && p.index < p.total
    ensures var b := Target(buffers, p);
            && |b.slots| == b.totalFrags && b.received == Filled(b.slots) && AllCame(ds, p.frameId, b)
            && (p.total == b.totalFrags ==> p.index < |b.slots|)
  {
    hide AllCame, AfterEviction;
    EvictionMakesRoom(buffers, p.frameId);
    FilledBounds(Opened(p).slots);
    OpenedCame(ds, p);
  }

  lemma OneMoreCame(ds: seq<seq<byte>>, d: seq<byte>, b: FrameBuffer)
    requires Parse(d).Some? && AllCame(ds + [d], Parse(d).value.frameId, b)
    requires var p := Parse(d).value; p.total == b.totalFrags && p.index < |b.slots|
    ensures var p := Parse(d).value;
            AllCame(ds + [d], p.frameId, b.(slots := b.slots[p.index := Some(p.chunk)], received := b.received + 1))
  {
    hide Parse;
    var p := Parse(d).value;
    assert (ds + [d])[|ds|] == d;
    assert Brings(d, p.frameId, p.index, b.totalFrags, p.chunk);
  }

  lemma FullIsMade(ds: seq<seq<byte>>, k: nat, b: FrameBuffer)
    requires AllCame(ds, k, b) && Filled(b.slots) == |b.slots| > 0
    ensures MadeOf(ds, k, Completed(b))
  {
    hide Came;
    FilledBounds(b.slots);
    assert forall i :: 0 <= i < |b.slots| ==> b.slots[i].Some?;
    var chunks := seq(|b.slots|, i requires 0 <= i < |b.slots| => b.slots[i].value);
    AssembleFull(b.slots, chunks);
    assert PutTogether(ds, k, Completed(b), chunks);
  }

  /**
   * Whatever bytes arrive, from whomever: every packet handed out is put together from pieces that came under its id
   * with one and the same total, one for each index.
   */
  lemma {:induction false} NothingIsInvented(ds: seq<seq<byte>>)
    ensures Structured(Run(ds)) && NoneInvented(ds, Run(ds))
    ensures ds != [] && Emitted(ds).Some? ==>
              var d := ds[|ds| - 1];
              Parse(d).Some? && MadeOf(ds, Parse(d).value.frameId, Emitted(ds).value)
  {
    if ds != [] {
      hide Place, AllCame, MadeOf, Parse, Structured;
      var before, d := ds[..|ds| - 1], ds[|ds| - 1];
      NothingIsInvented(before);
      DeliverKeepsStructure(Run(before), d);
      assert before + [d] == ds;
      if Parse(d).Some? {
        PlaceInventsNothing(before, Run(before), d);
      } else {
        forall k | k in Run(before) ensures AllCame(ds, k, Run(before)[k]) { StillCame(before, d, k, Run(before)[k]); }
      }
    }
  }
}
