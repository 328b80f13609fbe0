/** The baked fixture: the printer that writes pre-encoded frames and the parser that reads them back. */
module BakedFrames {
  import opened Wire
  import opened VideoStream

  const FRAME_HEADER := 5

  /** Four bytes, least significant first. */
  function ToLittleEndian(n: nat): (bytes: seq<byte>)
    ensures |bytes| == 4
  {
    var b := ToBigEndian(n, 4);
    [b[3], b[2], b[1], b[0]]
  }

  function FromLittleEndian(b: seq<byte>): nat
    requires |b| == 4
  {
    FromBigEndian([b[3], b[2], b[1], b[0]])
  }

  lemma LittleEndianRoundTrip(n: nat)
    ensures FromLittleEndian(ToLittleEndian(n)) == n % TIMESTAMPS
  {
    hide ToBigEndian, FromBigEndian;
    var b, l := ToBigEndian(n, 4), ToLittleEndian(n);
    assert [l[3], l[2], l[1], l[0]] == b;
    BigEndianRoundTrip(n, 4);
    assert Pow256(4) == TIMESTAMPS;
  }

  function FrameTypeByte(t: FrameType): byte {
    match t case Predicted => 0 case Idr => 1 case IntraRefresh => 2
  }

  function FrameTypeOf(b: byte): FrameType {
    if b == 1 then Idr else if b == 2 then IntraRefresh else Predicted
  }

  // ---- The printer ----

  function PrintedFrame(f: Frame): (bytes: seq<byte>)
    ensures |bytes| == FRAME_HEADER + |f.payload|
  {
    ToLittleEndian(|f.payload|) + [FrameTypeByte(f.frameType)] + f.payload
  }

  function Printed(frames: seq<Frame>): seq<byte> {
    if frames == [] then [] else PrintedFrame(frames[0]) + Printed(frames[1..])
  }

  /** The printer refuses a frame over the 16-bit payload cap. */
  ghost predicate Printable(frames: seq<Frame>) {
    forall i :: 0 <= i < |frames| ==> |frames[i].payload| < 0x1_0000
  }

  lemma {:induction false} PrintedAppend(frames: seq<Frame>, f: Frame)
    ensures Printed(frames + [f]) == Printed(frames) + PrintedFrame(f)
  {
    if frames == [] {
      assert ([f])[1..] == [];
    } else {
      assert (frames + [f])[1..] == frames[1..] + [f];
      PrintedAppend(frames[1..], f);
    }
  }

  method Print(frames: seq<Frame>) returns (out: seq<byte>)
    requires Printable(frames)
    ensures out == Printed(frames)
  {
    hide ToLittleEndian;
    out := [];
    for i := 0 to |frames|
      invariant out == Printed(frames[..i])
    {
      var f := frames[i];
      assert frames[..i + 1] == frames[..i] + [f];
      PrintedAppend(frames[..i], f);
      out := out + ToLittleEndian(|f.payload|);
      out := out + [FrameTypeByte(f.frameType)];
      out := out + f.payload;
    }
    assert frames[..|frames|] == frames;
  }

  // ---- The parser ----

  /** Frames up to the first one that is not all there. */
  function Parsed(data: seq<byte>): seq<Frame>
    decreases |data|
  {
    if |data| < FRAME_HEADER then []
    else
      var len := FromLittleEndian(data[..4]);
      if |data| - FRAME_HEADER < len then []
      else [Frame(FrameTypeOf(data[4]), data[5..5 + len])] + Parsed(data[5 + len..])
  }

  method ParseBakedFrames(input: seq<byte>) returns (frames: seq<Frame>)
    ensures frames == Parsed(input)
  {
    hide FromLittleEndian;
    var data := input;
    frames := [];
    while |data| >= 4
      invariant frames + Parsed(data) == Parsed(input)
      decreases |data|
    {
      var len := FromLittleEndian(data[..4]);
      if |data| <= 4 {
        break;
      }
      var frameType := match data[4] case 1 => Idr case 2 => IntraRefresh case _ => Predicted;
      var rest := data[5..];
      if |rest| < len {
        break;
      }
      assert Parsed(data) == [Frame(frameType, rest[..len])] + Parsed(rest[len..]) by {
        assert data[5..5 + len] == rest[..len] && data[5 + len..] == rest[len..];
      }
      frames := frames + [Frame(frameType, rest[..len])];
      data := rest[len..];
    }
  }

  // ---- Inverse ----

  /** Reading `n` bytes of a printed frame followed by more: all of it, or none of it. */
  lemma FirstFrame(f: Frame, more: seq<byte>, n: nat)
    requires |f.payload| < 0x1_0000 && n <= |PrintedFrame(f) + more|
    ensures var data := (PrintedFrame(f) + more)[..n];
            var size := FRAME_HEADER + |f.payload|;
            Parsed(data) == if n < size then [] else [f] + Parsed(more[..n - size])
  {
    var size := FRAME_HEADER + |f.payload|;
    var data := (PrintedFrame(f) + more)[..n];
    if n >= FRAME_HEADER {
      FrameHeader(f, more, n);
      if n >= size {
        FrameBody(f, more, n);
      }
    }
  }

  lemma FrameHeader(f: Frame, more: seq<byte>, n: nat)
    requires |f.payload| < 0x1_0000 && FRAME_HEADER <= n <= |PrintedFrame(f) + more|
    ensures var data := (PrintedFrame(f) + more)[..n];
            FromLittleEndian(data[..4]) == |f.payload| && FrameTypeOf(data[4]) == f.frameType
  {
    hide ToLittleEndian, FromLittleEndian;
    var data := (PrintedFrame(f) + more)[..n];
    assert data[..4] == ToLittleEndian(|f.payload|);
    assert data[4] == FrameTypeByte(f.frameType);
    LittleEndianRoundTrip(|f.payload|);
  }

  lemma FrameBody(f: Frame, more: seq<byte>, n: nat)
    requires FRAME_HEADER + |f.payload| <= n <= |PrintedFrame(f) + more|
    ensures var data := (PrintedFrame(f) + more)[..n];
            var size := FRAME_HEADER + |f.payload|;
            data[5..size] == f.payload && data[size..] == more[..n - size]
  {
    hide ToLittleEndian;
    var data := (PrintedFrame(f) + more)[..n];
    var size := FRAME_HEADER + |f.payload|;
    assert PrintedFrame(f)[5..] == f.payload;
    assert data[5..size] == PrintedFrame(f)[5..];
    assert data[size..] == more[..n - size];
  }

  /** Cutting printed frames anywhere leaves exactly the frames that are wholly before the cut. */
  lemma {:induction false} Truncation(frames: seq<Frame>, n: nat, m: nat)
    requires Printable(frames) && n <= |Printed(frames)| && m <= |frames|
    requires |Printed(frames[..m])| <= n
    requires m < |frames| ==> n < |Printed(frames[..m + 1])|
    ensures Parsed(Printed(frames)[..n]) == frames[..m]
    decreases |frames|
  {
    hide PrintedFrame, Parsed;
    if frames == [] {
      EmptyParses(Printed(frames)[..n]);
    } else {
      FirstFrame(frames[0], Printed(frames[1..]), n);
      if m > 0 {
        assert frames[..m][1..] == frames[1..][..m - 1];
        if m < |frames| {
          assert frames[..m + 1][1..] == frames[1..][..m];
        }
        Truncation(frames[1..], n - (FRAME_HEADER + |frames[0].payload|), m - 1);
        assert frames[..m] == [frames[0]] + frames[1..][..m - 1];
      } else {
        assert frames[..1][1..] == [] && Printed([]) == [];
      }
    }
  }

  lemma EmptyParses(data: seq<byte>)
    requires data == []
    ensures Parsed(data) == []
  {
  }

  /** The parser inverts the printer. */
  lemma RoundTrip(frames: seq<Frame>)
    requires Printable(frames)
    ensures Parsed(Printed(frames)) == frames
  {
    var bytes := Printed(frames);
    assert frames[..|frames|] == frames && bytes[..|bytes|] == bytes;
    Truncation(frames, |bytes|, |frames|);
  }

  /** The fixture by its places: a length, lowest byte first, a type of 1 for IDR and 2 for refresh, the payload. */
  lemma FixtureLayout(a: byte, b: byte, c: byte, d: byte, t: byte, payload: seq<byte>, rest: seq<byte>)
    requires |payload| == (a as int) + (b as int) * 256 + (c as int) * 65536 + (d as int) * 16777216
    ensures Parsed([a, b, c, d, t] + payload + rest) ==
            [Frame(if t == 1 then Idr else if t == 2 then IntraRefresh else Predicted, payload)] + Parsed(rest)
  {
    hide FromBigEndian;
    var data := [a, b, c, d, t] + payload + rest;
    assert data[..4] == [a, b, c, d];
    ByPlaces4([d, c, b, a]);
    assert FromLittleEndian(data[..4]) == |payload|;
    assert data[5..5 + |payload|] == payload && data[5 + |payload|..] == rest;
  }
}
