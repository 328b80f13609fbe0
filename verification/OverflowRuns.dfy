/** Concrete runs of the reassembler: a frame lost at the table's limit, and a frame handed out twice. */
module OverflowRuns {
  import opened Wire
  import opened Chunking
  import opened Packetize
  import opened Reassembly

  /** Frames 0 to 31 are two bytes long, frame 32 one byte; all are cut into single bytes. */
  function FrameOf(k: nat): Packet
    requires k <= 32
  {
    Packet(if k < 32 then [1, 2] else [1], H264, k, 0, Idr)
  }

  function Sent(): map<nat, SentPacket> {
    map k: nat | k <= 32 :: SentPacket(FrameOf(k), 1)
  }

  function Pieces(k: nat): nat { if k < 32 then 2 else 1 }

  function Datagram(k: nat, i: nat): seq<byte>
    requires k <= 32 && i < Pieces(k)
  {
    VideoDatagram(FrameOf(k), i, i, Pieces(k), [FrameOf(k).data[i]])
  }

  lemma CutOf(k: nat)
    requires k <= 32
    ensures Chunks(FrameOf(k).data, 1) == if k < 32 then [[1], [2]] else [[1]]
  {
    if k < 32 {
      assert FrameOf(k).data[..1] == [1] && FrameOf(k).data[1..] == [2];
    }
  }

  lemma SentIsCatalogue()
    ensures Catalogue(Sent())
  {
    hide Chunks;
    forall k: nat | k <= 32
      ensures |Chunks(FrameOf(k).data, 1)| <= 255 && k == k % FRAME_IDS
    {
      CutOf(k);
    }
  }

  /** Every datagram of these runs is one the sender makes. */
  lemma DatagramParses(k: nat, i: nat)
    requires k <= 32 && i < Pieces(k)
    ensures Catalogue(Sent()) && Genuine(Sent(), Datagram(k, i)) && Parse(Datagram(k, i)).Some?
    ensures var p := Parse(Datagram(k, i)).value; p.frameId == k && p.index == i && p.total == Pieces(k)
  {
    hide Chunks, VideoDatagram, Parse, IsFragment;
    SentIsCatalogue();
    CutOf(k);
    DatagramIsFragment(FrameOf(k), 0, 1, i, Datagram(k, i));
    FragmentsAreGenuine(Sent(), k, 0, Datagram(k, i), i);
    IdOf(k, Datagram(k, i), i);
  }

  lemma IdOf(k: nat, d: seq<byte>, i: nat)
    requires k <= 32 && IsFragment(d, FrameOf(k), 0, 1, i)
    ensures Parse(d).Some? && Parse(d).value.frameId == k && Parse(d).value.total == |Chunks(FrameOf(k).data, 1)|
  {
    hide Chunks, DecodeCommon, DecodeVideo;
  }

  // ---- Handed out twice ----

  /** A second copy of a frame of one fragment is not taken for a duplicate: the frame comes out again. */
  lemma DuplicateComesOutAgain()
    ensures var d := Datagram(32, 0);
            Emitted([d]) == Emitted([d, d]) == Some(FrameOf(32))
  {
    hide Emitted, Delivered, Datagram, Parse, Genuine;
    var k, d := 32, Datagram(32, 0);
    DatagramParses(k, 0);
    CutOf(k);
    var once, twice := [d], [d, d];
    assert once[0..] == once && twice[1..] == once && twice[..1] == once;
    DeliveredOnce(d, k);
    EmissionExactly(Sent(), once, 0, k);
    EmissionExactly(Sent(), twice, 1, k);
  }

  lemma DeliveredOnce(d: seq<byte>, k: nat)
    requires Parse(d).Some? && Parse(d).value.frameId == k
    ensures Delivered([d], k) == {Parse(d).value.index as nat}
  {
    hide Parse;
    assert [d][..0] == [];
  }

  // ---- Lost at the limit ----

  /** The first fragments of frames 0 to 31, then frame 32, then the rest of frame 0. */
  function Overflow(): seq<seq<byte>> {
    Firsts(32) + [Datagram(32, 0), Datagram(0, 1)]
  }

  function Firsts(n: nat): (ds: seq<seq<byte>>)
    requires n <= 32
    ensures |ds| == n
  {
    seq(n, k requires 0 <= k < n => Datagram(k, 0))
  }

  /** The first `n` frames open, each with its first index. */
  function OpenFirsts(n: nat): (open: Open)
    ensures |open| == n && forall k: nat :: k in open <==> k < n
    ensures forall k: nat :: k < n ==> open[k] == {0}
  {
    if n == 0 then map[]
    else
      var before := OpenFirsts(n - 1);
      Grows(before, n - 1);
      before[n - 1 := {0}]
  }

  lemma Grows(open: Open, k: nat)
    requires k !in open
    ensures |open[k := {0}]| == |open| + 1
  {
    assert open[k := {0}].Keys == open.Keys + {k};
    assert |open[k := {0}]| == |open[k := {0}].Keys|;
    assert |open| == |open.Keys|;
  }

  lemma OpensOne(open: Open, d: seq<byte>)
    requires Parse(d).Some? && Parse(d).value.index == 0 && Parse(d).value.total == 2
    requires Parse(d).value.frameId !in open
    ensures OpenStep(open, d) == open[Parse(d).value.frameId := {0}]
  {
    hide Parse;
    var k := Parse(d).value.frameId;
    var indices := IndicesOf(open, k) + {Parse(d).value.index as nat};
    assert indices == {0} && 1 !in indices;
  }

  lemma {:induction false} FirstsOpen(n: nat)
    requires n <= 32
    ensures OpenFrames(Firsts(n)) == OpenFirsts(n)
  {
    hide Datagram, Parse;
    if n > 0 {
      hide OpenStep;
      FirstsOpen(n - 1);
      assert Firsts(n)[..n - 1] == Firsts(n - 1);
      DatagramParses(n - 1, 0);
      OpensOne(OpenFirsts(n - 1), Datagram(n - 1, 0));
    }
  }

  lemma FirstsFit()
    ensures Catalogue(Sent()) && AllGenuine(Sent(), Firsts(32))
    ensures AlwaysFits(Firsts(32))
  {
    hide Datagram, Parse, OpenFrames, Genuine;
    SentIsCatalogue();
    var ds := Firsts(32);
    forall n | 0 <= n < |ds| ensures Fits(OpenFrames(ds[..n]), ds[n]) && Genuine(Sent(), ds[n]) {
      FirstsOpen(n);
      DatagramParses(n, 0);
      assert ds[..n] == Firsts(n);
    }
  }

  /** At the limit the lowest frame is pushed out, although the new one leaves as many frames open. */
  lemma PushesOutTheFirst()
    ensures var full := Firsts(32);
            var over := full + [Datagram(32, 0)];
            Evicts(over, 0) && OpenFrames(over) == OpenFirsts(32)
  {
    hide Datagram, Parse, OpenStep, Run, Genuine, OpenFirsts, PushedOut, Tracks, Firsts;
    var full, d := Firsts(32), Datagram(32, 0);
    var open := OpenFirsts(32);
    FirstsFit();
    Completeness(Sent(), full);
    FirstsOpen(32);
    DatagramParses(32, 0);
    assert (full + [d])[..|full|] == full;
    SingleFragmentOverflow(Run(full), open, d);
    LowestGoes(Run(full), open, 32);
  }

  lemma LowestGoes(buffers: Buffers, open: Open, key: nat)
    requires Tracks(buffers, open) && 0 in open && key !in open && |open| >= 32
    ensures PushedOut(buffers, key, 0)
  {
    assert |buffers| == |buffers.Keys| == |open.Keys| == |open|;
    assert 0 in buffers.Keys;
    assert Lowest(buffers.Keys) == 0;
  }

  lemma {:induction false} DeliveredHas(ds: seq<seq<byte>>, k: nat, j: nat)
    requires j < |ds| && Parse(ds[j]).Some? && Parse(ds[j]).value.frameId == k
    ensures Parse(ds[j]).value.index as nat in Delivered(ds, k)
  {
    hide Parse;
    if j < |ds| - 1 {
      DeliveredHas(ds[..|ds| - 1], k, j);
    }
  }

  /**
   * A run of genuine datagrams with at most 32 frames open after every step, in which both fragments of frame 0
   * arrive and it never comes out.
   */
  lemma FrameLostAtTheLimit()
    ensures Catalogue(Sent()) && AllGenuine(Sent(), Overflow())
    ensures forall n :: 0 <= n <= |Overflow()| ==> |OpenFrames(Overflow()[..n])| <= 32
    ensures Full(Delivered(Overflow(), 0), |Cut(Sent()[0])|)
    ensures forall n :: 0 <= n <= |Overflow()| ==> !Emits(Overflow()[..n], 0)
  {
    hide Datagram, Parse, OpenFrames, Run, Genuine, OpenFirsts, Delivered, Emits, Chunks;
    var ds := Overflow();
    SentIsCatalogue();
    AllParse();
    CutOf(0);
    DeliveredHas(ds, 0, 0);
    DeliveredHas(ds, 0, 33);
    forall n | 0 <= n <= |ds|
      ensures |OpenFrames(ds[..n])| <= 32 && !Emits(ds[..n], 0)
    {
      OpenAt(n);
      SilentAt(n);
    }
  }

  lemma AllParse()
    ensures Catalogue(Sent()) && AllGenuine(Sent(), Overflow())
    ensures forall n :: 0 <= n < |Overflow()| ==> Parse(Overflow()[n]).Some?
    ensures forall n :: 0 <= n < |Overflow()| ==>
              Parse(Overflow()[n]).value.frameId == if n <= 32 then n else 0
    ensures forall n :: 0 <= n < |Overflow()| ==>
              Parse(Overflow()[n]).value.index == if n <= 32 then 0 else 1
    ensures Parse(Overflow()[33]).value.total == 2
  {
    hide Datagram, Parse, Genuine;
    SentIsCatalogue();
    forall n | 0 <= n < |Overflow()|
      ensures Genuine(Sent(), Overflow()[n]) && Parse(Overflow()[n]).Some?
      ensures Parse(Overflow()[n]).value.frameId == if n <= 32 then n else 0
      ensures Parse(Overflow()[n]).value.index == if n <= 32 then 0 else 1
    {
      if n <= 32 {
        DatagramParses(n, 0);
      } else {
        DatagramParses(0, 1);
      }
    }
    DatagramParses(0, 1);
  }

  lemma OpenAt(n: nat)
    requires n <= |Overflow()|
    ensures |OpenFrames(Overflow()[..n])| <= 32
  {
    hide Datagram, Parse, OpenFirsts, Evicts;
    var ds, limit := Overflow(), 32;
    if n <= limit {
      assert ds[..n] == Firsts(n);
      FirstsOpen(n);
    } else {
      PushesOutTheFirst();
      var over := Firsts(limit) + [Datagram(limit, 0)];
      assert ds[..limit + 1] == over;
      if n == limit + 2 {
        assert ds[..n] == over + [Datagram(0, 1)] && (over + [Datagram(0, 1)])[..limit + 1] == over;
        DatagramParses(0, 1);
        ClosesOne(OpenFirsts(limit), Datagram(0, 1));
      }
    }
  }

  lemma ClosesOne(open: Open, d: seq<byte>)
    requires Parse(d).Some? && Parse(d).value.frameId in open
    ensures |OpenStep(open, d)| <= |open|
  {
    hide Parse;
    var k := Parse(d).value.frameId;
    var next := OpenStep(open, d);
    assert next.Keys <= open.Keys;
    CardinalityMonotone(next.Keys, open.Keys);
    assert |next| == |next.Keys| && |open| == |open.Keys|;
  }

  /** One fragment of frame 0 since it last left the table does not bring it out. */
  lemma OneFragmentIsSilent(ds: seq<seq<byte>>, d: seq<byte>)
    requires Catalogue(Sent()) && AllGenuine(Sent(), ds + [d]) && (ds == [] || Leaves(ds, 0))
    requires Parse(d).Some? && Parse(d).value.frameId == 0 && Parse(d).value.index < 2
    ensures !Emits(ds + [d], 0)
  {
    hide Parse, Genuine, Delivered, Emits, Leaves, Chunks;
    var all := ds + [d];
    assert all[..|ds|] == ds && all[|ds|..] == [d];
    DeliveredOnce(d, 0);
    CutOf(0);
    EmissionExactly(Sent(), all, |ds|, 0);
    assert 1 - Parse(d).value.index !in Delivered([d], 0);
  }

  lemma SilentAt(n: nat)
    requires n <= |Overflow()|
    ensures !Emits(Overflow()[..n], 0)
  {
    hide Datagram, Parse, OpenFrames, Genuine, Emitted, Evicts, Firsts, Catalogue;
    var ds, limit := Overflow(), 32;
    AllParse();
    if n == 1 {
      assert ds[..1] == [] + [ds[0]];
      OneFragmentIsSilent([], ds[0]);
    } else if n == limit + 2 {
      PushesOutTheFirst();
      var over := Firsts(limit) + [Datagram(limit, 0)];
      assert ds[..n] == ds == over + [ds[limit + 1]];
      OneFragmentIsSilent(over, ds[limit + 1]);
    }
  }
}
